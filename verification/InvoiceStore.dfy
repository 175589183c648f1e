/**
  The in-memory store of the REST shim: two maps under two locks, written by
  interleaved handlers.
 */
module InvoiceStore {
  import opened Wrappers
  import opened Preimage

  /** `EngineProcessResponse`. */
  datatype EngineReply = EngineReply(status: nat, responseBase64: string)

  /** `InvoiceResponse`. */
  datatype InvoiceReply = InvoiceReply(id: string, engine: EngineReply, bundleId: string)

  datatype ApiError =
    | BadJson
    | UnprocessableEngineResponse(response: EngineReply)
    | Internal
    | NotFound(kind: string, id: string)

  datatype StoredInvoice = StoredInvoice(engineRequest: Bytes, document: Bytes, bundle: Bytes)

  datatype Record = Record(id: string, invoiceId: string, state: string, gateway: string)

  /** The calls into other crates: the engine, document revalidation, bundle packing, base64, BLAKE3. */
  datatype Crates = Crates(
    request: Bytes -> Option<Bytes>,
    process: Bytes -> Bytes,
    succeeded: Bytes -> bool,
    document: Bytes -> Option<Bytes>,
    pack: (string, Bytes, Bytes) -> Option<Bytes>,
    utf8: string -> Bytes,
    base64: Bytes -> string,
    digest: Bytes -> string)
  {
    /** Digests have 64 characters, and texts are told apart by their bytes. */
    ghost predicate Valid() {
      (forall x :: |digest(x)| == 64) &&
      (forall s, t :: utf8(s) == utf8(t) ==> s == t)
    }

    /** `engine_process_response`, given the engine's answer. */
    function Reply(response: Bytes): EngineReply {
      EngineReply(if succeeded(response) then 0 else 1, base64(response))
    }

    /** `prefixed_hash`. */
    function HashId(prefix: string, parts: seq<Bytes>): string
      requires |digest(HashedBytes(parts))| == 64
    {
      prefix + "_" + ShortHash(digest, parts)
    }
  }

  /** The incremental hasher: what it has absorbed so far. */
  class Hasher {
    var absorbed: Bytes

    constructor ()
      ensures absorbed == []
    {
      absorbed := [];
    }

    method Update(data: Bytes)
      modifies this
      ensures absorbed == old(absorbed) + data
    {
      absorbed := absorbed + data;
    }
  }

  method PrefixedHash(crates: Crates, prefix: string, parts: seq<Bytes>) returns (id: string)
    requires |crates.digest(HashedBytes(parts))| == 64
    ensures id == crates.HashId(prefix, parts)
  {
    var hasher := new Hasher();
    hasher.Update(TAG);
    for i := 0 to |parts|
      invariant hasher.absorbed + Feed(parts[i..]) == HashedBytes(parts)
    {
      FeedStep(hasher.absorbed, parts, i);
      hasher.Update(BigEndian(|parts[i]|, 8));
      hasher.Update(parts[i]);
    }
    assert hasher.absorbed + [] == hasher.absorbed;
    id := prefix + "_" + crates.digest(hasher.absorbed)[..24];
  }

  lemma FeedStep(absorbed: Bytes, parts: seq<Bytes>, i: nat)
    requires i < |parts|
    ensures absorbed + Feed(parts[i..]) == absorbed + BigEndian(|parts[i]|, 8) + parts[i] + Feed(parts[i + 1..])
  {
    assert parts[i..][1..] == parts[i + 1..];
    assert Feed(parts[i..]) == BigEndian(|parts[i]|, 8) + parts[i] + Feed(parts[i + 1..]);
  }

  // ---------------------------------------------------------------- handlers

  datatype Store = Store(invoices: map<string, StoredInvoice>, transmissions: map<string, Record>)

  /** What a creation request yields before it reaches the store. */
  function Prepare(crates: Crates, key: string, body: Bytes): Result<(string, StoredInvoice), ApiError>
    requires crates.Valid()
  {
    match crates.request(body)
    case None => Err(BadJson)
    case Some(request) =>
      var response := crates.process(request);
      if !crates.succeeded(response) then Err(UnprocessableEngineResponse(crates.Reply(response))) else
      match crates.document(response)
      case None => Err(Internal)
      case Some(document) =>
        var id := crates.HashId("inv", [crates.utf8(key), response]);
        match crates.pack(id, request, response)
        case None => Err(Internal)
        case Some(bundle) => Ok((id, StoredInvoice(request, document, bundle)))
  }

  function TransmissionId(crates: Crates, id: string): string
    requires crates.Valid()
  {
    crates.HashId("tx", [crates.utf8(id)])
  }

  function NewRecord(crates: Crates, id: string): Record
    requires crates.Valid()
  {
    Record(TransmissionId(crates, id), id, "accepted", "mock")
  }

  function AfterCreate(crates: Crates, store: Store, key: string, body: Bytes): Store
    requires crates.Valid()
  {
    match Prepare(crates, key, body)
    case Err(_) => store
    case Ok((id, invoice)) => store.(invoices := store.invoices[id := invoice])
  }

  function AfterTransmitInsert(crates: Crates, store: Store, id: string): Store
    requires crates.Valid()
  {
    store.(transmissions := store.transmissions[TransmissionId(crates, id) := NewRecord(crates, id)])
  }

  class RestShimState {
    var invoices: map<string, StoredInvoice>
    var transmissions: map<string, Record>

    constructor ()
      ensures Contents() == Store(map[], map[])
    {
      invoices, transmissions := map[], map[];
    }

    function Contents(): Store
      reads this
    {
      Store(invoices, transmissions)
    }

    method CreateInvoice(crates: Crates, key: string, body: Bytes) returns (r: Result<InvoiceReply, ApiError>)
      requires crates.Valid()
      modifies this
      ensures Contents() == AfterCreate(crates, old(Contents()), key, body)
      ensures match Prepare(crates, key, body)
        case Err(error) => r == Err(error)
        case Ok((id, invoice)) =>
          var response := crates.process(crates.request(body).value);
          r == Ok(InvoiceReply(id, EngineReply(0, crates.base64(response)), id))
    {
      var request := crates.request(body);
      if request.None? {
        return Err(BadJson);
      }
      var response := crates.process(request.value);
      if !crates.succeeded(response) {
        return Err(UnprocessableEngineResponse(crates.Reply(response)));
      }
      var document := crates.document(response);
      if document.None? {
        return Err(Internal);
      }
      var id := PrefixedHash(crates, "inv", [crates.utf8(key), response]);
      var bundle := crates.pack(id, request.value, response);
      if bundle.None? {
        return Err(Internal);
      }
      invoices := invoices[id := StoredInvoice(request.value, document.value, bundle.value)];
      return Ok(InvoiceReply(id, crates.Reply(response), id));
    }

    /** The first half of a transmission, under the invoice lock only. */
    method EnsureInvoiceExists(id: string) returns (r: Result<(), ApiError>)
      ensures r == if id in invoices then Ok(()) else Err(NotFound("invoice", id))
    {
      r := if id in invoices then Ok(()) else Err(NotFound("invoice", id));
    }

    /** The second half, under the transmission lock only. */
    method InsertTransmission(crates: Crates, id: string) returns (transmissionId: string)
      requires crates.Valid()
      modifies this`transmissions
      ensures Contents() == AfterTransmitInsert(crates, old(Contents()), id)
      ensures transmissionId == TransmissionId(crates, id)
    {
      transmissionId := PrefixedHash(crates, "tx", [crates.utf8(id)]);
      transmissions := transmissions[transmissionId := Record(transmissionId, id, "accepted", "mock")];
    }

    /** A transmission that no other handler interrupts. */
    method TransmitInvoice(crates: Crates, id: string) returns (r: Result<string, ApiError>)
      requires crates.Valid()
      modifies this`transmissions
      ensures id !in invoices ==> r == Err(NotFound("invoice", id)) && transmissions == old(transmissions)
      ensures id in invoices ==>
        r == Ok(TransmissionId(crates, id)) && Contents() == AfterTransmitInsert(crates, old(Contents()), id)
    {
      var check := EnsureInvoiceExists(id);
      if check.Err? {
        return Err(check.error);
      }
      var transmissionId := InsertTransmission(crates, id);
      return Ok(transmissionId);
    }

    method GetTransmission(id: string) returns (r: Result<Record, ApiError>)
      ensures r == if id in transmissions then Ok(transmissions[id]) else Err(NotFound("transmission", id))
    {
      r := if id in transmissions then Ok(transmissions[id]) else Err(NotFound("transmission", id));
    }

    /** Looks an invoice up and projects it, under the read lock. */
    method WithInvoice<T>(id: string, kind: string, project: StoredInvoice -> T) returns (r: Result<T, ApiError>)
      ensures r == if id in invoices then Ok(project(invoices[id])) else Err(NotFound(kind, id))
    {
      r := if id in invoices then Ok(project(invoices[id])) else Err(NotFound(kind, id));
    }

    method Reconcile(ids: seq<string>) returns (matches: seq<(string, bool)>)
      ensures |matches| == |ids|
      ensures forall i :: 0 <= i < |ids| ==> matches[i] == (ids[i], ids[i] in invoices)
    {
      matches := seq(|ids|, i requires 0 <= i < |ids| reads this => (ids[i], ids[i] in invoices));
    }
  }
}
