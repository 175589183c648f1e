/** Every interleaving of the REST shim's handlers, a transmission counting as two steps. */
module StoreRuns {
  import opened Wrappers
  import opened Preimage
  import opened InvoiceStore

  /** The store, and the transmissions that have passed their check but not yet inserted. */
  datatype Machine = Machine(store: Store, pending: multiset<string>)

  datatype Step =
    | Create(key: string, body: Bytes)
    | TransmitCheck(id: string)
    | TransmitInsert(id: string)
    | Read(id: string)
    | GetTransmission(id: string)
    | Reconcile(ids: seq<string>)

  const START := Machine(Store(map[], map[]), multiset{})

  predicate Enabled(m: Machine, step: Step) {
    step.TransmitInsert? ==> step.id in m.pending
  }

  function Next(crates: Crates, m: Machine, step: Step): Machine
    requires crates.Valid()
  {
    match step
    case Create(key, body) => m.(store := AfterCreate(crates, m.store, key, body))
    case TransmitCheck(id) => if id in m.store.invoices then m.(pending := m.pending + multiset{id}) else m
    case TransmitInsert(id) => Machine(AfterTransmitInsert(crates, m.store, id), m.pending - multiset{id})
    case _ => m
  }

  /** The machines a sequence of steps goes through. */
  ghost predicate IsRun(crates: Crates, machines: seq<Machine>, steps: seq<Step>)
    requires crates.Valid()
  {
    |machines| == |steps| + 1 &&
    forall i :: 0 <= i < |steps| ==>
      Enabled(machines[i], steps[i]) && machines[i + 1] == Next(crates, machines[i], steps[i])
  }

  /** What every reachable machine satisfies, whatever the hash function does. */
  ghost predicate Consistent(crates: Crates, m: Machine)
    requires crates.Valid()
  {
    (forall t :: t in m.store.transmissions ==>
      var record := m.store.transmissions[t];
      record == NewRecord(crates, record.invoiceId) && t == record.id && record.invoiceId in m.store.invoices) &&
    (forall id :: id in m.pending ==> id in m.store.invoices)
  }

  ghost predicate Grows(before: Store, after: Store) {
    before.invoices.Keys <= after.invoices.Keys && before.transmissions.Keys <= after.transmissions.Keys
  }

  lemma StepKeepsConsistent(crates: Crates, m: Machine, step: Step)
    requires crates.Valid() && Consistent(crates, m) && Enabled(m, step)
    ensures Consistent(crates, Next(crates, m, step)) && Grows(m.store, Next(crates, m, step).store)
  {
    hide Prepare, TransmissionId;
  }

  /**
    Over every run from the empty store: each record is stored under its own id and
    names a stored invoice; nothing once stored under an id disappears.
   */
  lemma {:induction false} RunKeepsConsistent(crates: Crates, machines: seq<Machine>, steps: seq<Step>, i: nat, j: nat)
    requires crates.Valid() && IsRun(crates, machines, steps) && machines[0] == START
    requires i <= j < |machines|
    ensures Consistent(crates, machines[j]) && Grows(machines[i].store, machines[j].store)
    decreases j
  {
    if j > 0 {
      RunKeepsConsistent(crates, machines, steps, if i < j then i else j - 1, j - 1);
      StepKeepsConsistent(crates, machines[j - 1], steps[j - 1]);
    }
  }

  /** At most one transmission names an invoice, even if hashes collide. */
  lemma OneTransmissionPerInvoice(crates: Crates, m: Machine, t: string, u: string)
    requires crates.Valid() && Consistent(crates, m)
    requires t in m.store.transmissions && u in m.store.transmissions
    requires m.store.transmissions[t].invoiceId == m.store.transmissions[u].invoiceId
    ensures t == u
  {
  }

  /** Transmitting an invoice again leaves the store as it is. */
  lemma RetransmitChangesNothing(crates: Crates, m: Machine, t: string)
    requires crates.Valid() && Consistent(crates, m) && t in m.store.transmissions
    ensures AfterTransmitInsert(crates, m.store, m.store.transmissions[t].invoiceId) == m.store
  {
    var id := m.store.transmissions[t].invoiceId;
    assert AfterTransmitInsert(crates, m.store, id).transmissions == m.store.transmissions;
  }

  // ------------------------------------------------- with a collision-free hash

  /** No two of the byte strings hashed for these part lists share a short digest. */
  ghost predicate CollisionFree(crates: Crates, hashed: set<seq<Bytes>>)
    requires crates.Valid()
  {
    (forall parts :: parts in hashed ==> AllFit(parts)) &&
    forall p, q :: p in hashed && q in hashed && ShortHash(crates.digest, p) == ShortHash(crates.digest, q) ==>
      HashedBytes(p) == HashedBytes(q)
  }

  /** Different part lists get different ids. */
  lemma IdsDiffer(crates: Crates, hashed: set<seq<Bytes>>, prefix: string, p: seq<Bytes>, q: seq<Bytes>)
    requires crates.Valid() && CollisionFree(crates, hashed) && p in hashed && q in hashed
    requires crates.HashId(prefix, p) == crates.HashId(prefix, q)
    ensures p == q
  {
    var a, b := crates.HashId(prefix, p), crates.HashId(prefix, q);
    assert a[|prefix| + 1..] == ShortHash(crates.digest, p) && b[|prefix| + 1..] == ShortHash(crates.digest, q);
    var x, y := HashedBytes(p), HashedBytes(q);
    assert x[|TAG|..] == Feed(p) && y[|TAG|..] == Feed(q);
    FeedInjective(p, q);
  }

  /** Everything a step hashes is among `hashed`. */
  ghost predicate HashesWithin(crates: Crates, step: Step, hashed: set<seq<Bytes>>)
    requires crates.Valid()
  {
    match step
    case Create(key, body) =>
      Prepare(crates, key, body).Ok? ==> [crates.utf8(key), crates.process(crates.request(body).value)] in hashed
    case TransmitInsert(id) => [crates.utf8(id)] in hashed
    case _ => true
  }

  /** An invoice is stored under the hash of its key and of the response its document comes from. */
  ghost predicate HasOrigin(crates: Crates, id: string, invoice: StoredInvoice, hashed: set<seq<Bytes>>)
    requires crates.Valid()
  {
    exists key, response ::
      OriginIs(crates, id, invoice, key, response) && [crates.utf8(key), response] in hashed
  }

  ghost predicate OriginIs(crates: Crates, id: string, invoice: StoredInvoice, key: string, response: Bytes)
    requires crates.Valid()
  {
    id == crates.HashId("inv", [crates.utf8(key), response]) && crates.document(response) == Some(invoice.document)
  }

  ghost predicate Traceable(crates: Crates, m: Machine, hashed: set<seq<Bytes>>)
    requires crates.Valid()
  {
    (forall id :: id in m.store.invoices ==> HasOrigin(crates, id, m.store.invoices[id], hashed)) &&
    (forall t :: t in m.store.transmissions ==> [crates.utf8(m.store.transmissions[t].invoiceId)] in hashed)
  }

  /** Records stay as they are, and a stored invoice keeps its document. */
  ghost predicate Settled(before: Store, after: Store) {
    Grows(before, after) &&
    (forall t :: t in before.transmissions ==> after.transmissions[t] == before.transmissions[t]) &&
    (forall id :: id in before.invoices ==> after.invoices[id].document == before.invoices[id].document)
  }

  lemma CreateSettles(crates: Crates, m: Machine, key: string, body: Bytes, hashed: set<seq<Bytes>>)
    requires crates.Valid() && Traceable(crates, m, hashed) && CollisionFree(crates, hashed)
    requires HashesWithin(crates, Create(key, body), hashed)
    ensures var after := Next(crates, m, Create(key, body));
      Traceable(crates, after, hashed) && Settled(m.store, after.store)
  {
    hide Prepare, OriginIs;
    if Prepare(crates, key, body).Ok? {
      var (id, invoice) := Prepare(crates, key, body).value;
      PreparedHasOrigin(crates, key, body);
      var response := crates.process(crates.request(body).value);
      assert HasOrigin(crates, id, invoice, hashed);
      if id in m.store.invoices {
        var k, r :| OriginIs(crates, id, m.store.invoices[id], k, r) && [crates.utf8(k), r] in hashed;
        SameIdSameDocument(crates, hashed, id, m.store.invoices[id], k, r, invoice, key, response);
      }
    }
  }

  lemma PreparedHasOrigin(crates: Crates, key: string, body: Bytes)
    requires crates.Valid() && Prepare(crates, key, body).Ok?
    ensures crates.request(body).Some?
    ensures var (id, invoice) := Prepare(crates, key, body).value;
      OriginIs(crates, id, invoice, key, crates.process(crates.request(body).value))
  {
  }

  lemma SameIdSameDocument(crates: Crates, hashed: set<seq<Bytes>>, id: string, a: StoredInvoice, k: string, r: Bytes,
                           b: StoredInvoice, k': string, r': Bytes)
    requires crates.Valid() && CollisionFree(crates, hashed)
    requires OriginIs(crates, id, a, k, r) && [crates.utf8(k), r] in hashed
    requires OriginIs(crates, id, b, k', r') && [crates.utf8(k'), r'] in hashed
    ensures a.document == b.document
  {
    IdsDiffer(crates, hashed, "inv", [crates.utf8(k), r], [crates.utf8(k'), r']);
    assert [crates.utf8(k), r][1] == [crates.utf8(k'), r'][1];
  }

  lemma RecordsAreNew(crates: Crates, m: Machine)
    requires crates.Valid() && Consistent(crates, m)
    ensures forall t :: t in m.store.transmissions ==>
      m.store.transmissions[t] == NewRecord(crates, m.store.transmissions[t].invoiceId) &&
      t == TransmissionId(crates, m.store.transmissions[t].invoiceId)
  {
  }

  lemma InsertSettles(crates: Crates, m: Machine, id: string, hashed: set<seq<Bytes>>)
    requires crates.Valid() && Consistent(crates, m) && Traceable(crates, m, hashed) && CollisionFree(crates, hashed)
    requires [crates.utf8(id)] in hashed
    ensures var after := Next(crates, m, TransmitInsert(id));
      Traceable(crates, after, hashed) && Settled(m.store, after.store)
  {
    hide TransmissionId, CollisionFree, HasOrigin, Consistent;
    RecordsAreNew(crates, m);
    var t := TransmissionId(crates, id);
    if t in m.store.transmissions {
      var other := m.store.transmissions[t].invoiceId;
      TransmissionsMatchInvoices(crates, hashed, other, id);
    }
  }

  lemma StepSettles(crates: Crates, m: Machine, step: Step, hashed: set<seq<Bytes>>)
    requires crates.Valid() && Consistent(crates, m) && Traceable(crates, m, hashed)
    requires CollisionFree(crates, hashed) && HashesWithin(crates, step, hashed)
    ensures Traceable(crates, Next(crates, m, step), hashed) && Settled(m.store, Next(crates, m, step).store)
  {
    match step
    case Create(key, body) => CreateSettles(crates, m, key, body, hashed);
    case TransmitInsert(id) => InsertSettles(crates, m, id, hashed);
    case _ =>
  }

  lemma SettledChains(a: Store, b: Store, c: Store)
    requires Settled(a, b) && Settled(b, c)
    ensures Settled(a, c)
  {
  }

  /**
    While no two hashed byte strings collide: once an invoice or a transmission is
    stored, every later machine of the run holds the same document and the same record.
   */
  lemma {:induction false} RunSettles(crates: Crates, machines: seq<Machine>, steps: seq<Step>,
                                      hashed: set<seq<Bytes>>, i: nat, j: nat)
    requires crates.Valid() && IsRun(crates, machines, steps) && machines[0] == START
    requires CollisionFree(crates, hashed) && forall k :: 0 <= k < |steps| ==> HashesWithin(crates, steps[k], hashed)
    requires i <= j < |machines|
    ensures Traceable(crates, machines[j], hashed) && Settled(machines[i].store, machines[j].store)
    decreases j
  {
    if j > 0 {
      var k := if i < j then i else j - 1;
      RunSettles(crates, machines, steps, hashed, k, j - 1);
      RunKeepsConsistent(crates, machines, steps, j - 1, j - 1);
      StepSettles(crates, machines[j - 1], steps[j - 1], hashed);
      if i < j {
        SettledChains(machines[i].store, machines[j - 1].store, machines[j].store);
      }
    }
  }

  /** Different invoices never share a transmission, nor one invoice two. */
  lemma TransmissionsMatchInvoices(crates: Crates, hashed: set<seq<Bytes>>, a: string, b: string)
    requires crates.Valid() && CollisionFree(crates, hashed)
    requires [crates.utf8(a)] in hashed && [crates.utf8(b)] in hashed
    ensures TransmissionId(crates, a) == TransmissionId(crates, b) <==> a == b
  {
    if TransmissionId(crates, a) == TransmissionId(crates, b) {
      IdsDiffer(crates, hashed, "tx", [crates.utf8(a)], [crates.utf8(b)]);
      assert [crates.utf8(a)][0] == [crates.utf8(b)][0];
    }
  }

  /** A check that succeeded stays good: the invoice is there whenever the insert happens. */
  lemma CheckStaysGood(crates: Crates, machines: seq<Machine>, steps: seq<Step>, i: nat, j: nat, id: string)
    requires crates.Valid() && IsRun(crates, machines, steps) && machines[0] == START
    requires i < j < |steps| && steps[i] == TransmitCheck(id) && id in machines[i].store.invoices
    requires steps[j] == TransmitInsert(id)
    ensures id in machines[j + 1].store.invoices
    ensures TransmissionId(crates, id) in machines[j + 1].store.transmissions
    ensures machines[j + 1].store.transmissions[TransmissionId(crates, id)] == NewRecord(crates, id)
  {
    RunKeepsConsistent(crates, machines, steps, i, j + 1);
  }

  /**
    A transmission reads back: without collisions, whoever asks for its id at any later
    time gets the record that was inserted.
   */
  lemma TransmissionReadsBack(crates: Crates, machines: seq<Machine>, steps: seq<Step>, hashed: set<seq<Bytes>>,
                              i: nat, j: nat, id: string)
    requires crates.Valid() && IsRun(crates, machines, steps) && machines[0] == START
    requires CollisionFree(crates, hashed) && forall k :: 0 <= k < |steps| ==> HashesWithin(crates, steps[k], hashed)
    requires i < j < |machines| && steps[i] == TransmitInsert(id)
    ensures TransmissionId(crates, id) in machines[j].store.transmissions
    ensures machines[j].store.transmissions[TransmissionId(crates, id)] == NewRecord(crates, id)
    ensures id in machines[j].store.invoices
  {
    RunSettles(crates, machines, steps, hashed, i + 1, j);
    RunKeepsConsistent(crates, machines, steps, i + 1, j);
  }

  /** An invoice reads back: whoever looks it up later gets the document its creation stored. */
  lemma InvoiceReadsBack(crates: Crates, machines: seq<Machine>, steps: seq<Step>, hashed: set<seq<Bytes>>,
                         i: nat, j: nat, key: string, body: Bytes)
    requires crates.Valid() && IsRun(crates, machines, steps) && machines[0] == START
    requires CollisionFree(crates, hashed) && forall k :: 0 <= k < |steps| ==> HashesWithin(crates, steps[k], hashed)
    requires i < j < |machines| && steps[i] == Create(key, body) && Prepare(crates, key, body).Ok?
    ensures var (id, invoice) := Prepare(crates, key, body).value;
      id in machines[j].store.invoices && machines[j].store.invoices[id].document == invoice.document
  {
    RunSettles(crates, machines, steps, hashed, i + 1, j);
  }

  /**
    Creating again with the same key and a body the engine answers alike: the same id
    and document, but the stored request and bundle are those of the later body.  It
    changes nothing exactly when the two bodies make the same request.
   */
  lemma RecreateReplacesRequest(crates: Crates, store: Store, key: string, first: Bytes, second: Bytes)
    requires crates.Valid() && Prepare(crates, key, first).Ok? && Prepare(crates, key, second).Ok?
    requires crates.process(crates.request(first).value) == crates.process(crates.request(second).value)
    ensures var (id, _) := Prepare(crates, key, first).value;
      var once := AfterCreate(crates, store, key, first);
      var twice := AfterCreate(crates, once, key, second);
      twice.invoices.Keys == once.invoices.Keys &&
      twice.invoices[id].document == once.invoices[id].document &&
      twice.invoices[id].engineRequest == crates.request(second).value &&
      Some(twice.invoices[id].bundle) ==
        crates.pack(id, crates.request(second).value, crates.process(crates.request(second).value)) &&
      (twice == once <==> crates.request(first) == crates.request(second))
  {
    var (id, invoice) := Prepare(crates, key, first).value;
    var (id', invoice') := Prepare(crates, key, second).value;
    var once := AfterCreate(crates, store, key, first);
    var twice := AfterCreate(crates, once, key, second);
    assert id == id' && once.invoices[id] == invoice && twice.invoices[id] == invoice';
    if crates.request(first) == crates.request(second) {
      assert twice.invoices == once.invoices;
    }
  }

  /** Four bytes a character. */
  function Wide(s: string): Bytes {
    if s == "" then [] else BigEndian(s[0] as int, 4) + Wide(s[1..])
  }

  lemma {:induction false} WideInjective(s: string, t: string)
    requires Wide(s) == Wide(t)
    ensures s == t
  {
    if s != "" && t != "" {
      assert Wide(s)[..4] == BigEndian(s[0] as int, 4) && Wide(t)[..4] == BigEndian(t[0] as int, 4);
      assert Wide(s)[4..] == Wide(s[1..]) && Wide(t)[4..] == Wide(t[1..]);
      assert Pow256(2) == 0x1_0000 && Pow256(4) == 0x1_0000_0000;
      BigEndianInjective(s[0] as int, t[0] as int, 4);
      WideInjective(s[1..], t[1..]);
      assert s == [s[0]] + s[1..] && t == [t[0]] + t[1..];
    }
  }

  /** An engine that gives every request the same answer. */
  function SameAnswer(): Crates {
    Crates(body => Some(body), request => [], response => true, response => Some([]),
           (id, request, response) => Some([]), Wide, bytes => "", bytes => seq(64, i => '0'))
  }

  /** It happens: the second creation leaves one invoice, with the other request. */
  lemma RecreateHappens(key: string)
    ensures var crates := SameAnswer();
      crates.Valid() &&
      var once := AfterCreate(crates, START.store, key, [1]);
      var twice := AfterCreate(crates, once, key, [2]);
      |once.invoices| == 1 && twice.invoices.Keys == once.invoices.Keys && twice != once
  {
    var crates := SameAnswer();
    assert crates.Valid() by {
      forall s, t | crates.utf8(s) == crates.utf8(t) ensures s == t {
        WideInjective(s, t);
      }
    }
    RecreateReplacesRequest(crates, START.store, key, [1], [2]);
    assert crates.request([1]).value[0] != crates.request([2]).value[0];
  }

  // --------------------------------------------------------- what creation does

  /** A creation succeeds exactly when every stage does; its invoice is made of what the stages gave. */
  lemma CreationSucceedsIff(crates: Crates, key: string, body: Bytes)
    requires crates.Valid()
    ensures Prepare(crates, key, body) == Err(BadJson) <==> crates.request(body).None?
    ensures crates.request(body).Some? ==>
      var request := crates.request(body).value;
      var response := crates.process(request);
      var id := "inv_" + crates.digest(HashedBytes([crates.utf8(key), response]))[..24];
      (!crates.succeeded(response) ==>
        Prepare(crates, key, body) == Err(UnprocessableEngineResponse(EngineReply(1, crates.base64(response))))) &&
      (crates.succeeded(response) && (crates.document(response).None? || crates.pack(id, request, response).None?) ==>
        Prepare(crates, key, body) == Err(Internal)) &&
      (Prepare(crates, key, body).Ok? <==>
        crates.succeeded(response) && crates.document(response).Some? && crates.pack(id, request, response).Some?) &&
      (Prepare(crates, key, body).Ok? ==>
        var (stored, invoice) := Prepare(crates, key, body).value;
        stored == id && invoice.engineRequest == request && Some(invoice.document) == crates.document(response) &&
        Some(invoice.bundle) == crates.pack(id, request, response))
  {
    if crates.request(body).Some? {
      var response := crates.process(crates.request(body).value);
      assert "inv" + "_" + ShortHash(crates.digest, [crates.utf8(key), response]) ==
        "inv_" + ShortHash(crates.digest, [crates.utf8(key), response]);
    }
  }

  /** A record as it is answered. */
  lemma RecordIs(crates: Crates, id: string)
    requires crates.Valid()
    ensures TransmissionId(crates, id) == "tx_" + crates.digest(HashedBytes([crates.utf8(id)]))[..24]
    ensures NewRecord(crates, id) == Record(TransmissionId(crates, id), id, "accepted", "mock")
  {
    assert "tx" + "_" + ShortHash(crates.digest, [crates.utf8(id)]) ==
      "tx_" + ShortHash(crates.digest, [crates.utf8(id)]);
  }

  /** A creation adds or replaces one invoice and nothing else, an insertion one record. */
  lemma StepsTouch(crates: Crates, store: Store, key: string, body: Bytes, id: string)
    requires crates.Valid()
    ensures AfterCreate(crates, store, key, body).transmissions == store.transmissions
    ensures Prepare(crates, key, body).Err? ==> AfterCreate(crates, store, key, body) == store
    ensures Prepare(crates, key, body).Ok? ==>
      var (at, invoice) := Prepare(crates, key, body).value;
      AfterCreate(crates, store, key, body).invoices == store.invoices[at := invoice]
    ensures AfterTransmitInsert(crates, store, id).invoices == store.invoices
    ensures AfterTransmitInsert(crates, store, id).transmissions ==
      store.transmissions[TransmissionId(crates, id) := Record(TransmissionId(crates, id), id, "accepted", "mock")]
  {
  }
}
