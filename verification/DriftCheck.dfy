/** Normalising a recorded and a live response, and what it takes for no drift to be reported. */
module DriftCheck {
  import opened Drift
  import opened JsonModel
  import opened JsonText
  import opened Text

  const IGNORED_HEADERS: set<string> := {
    "date", "request-id", "x-request-id", "x-trace-id", "x-correlation-id", "x-amzn-requestid", "etag", "set-cookie"
  }

  function LowerChar(c: char): char {
    if 'A' <= c <= 'Z' then c - 'A' + 'a' else c
  }

  function Lower(s: string): (l: string)
    ensures |l| == |s| && forall i :: 0 <= i < |s| ==> l[i] == LowerChar(s[i])
  {
    seq(|s|, i requires 0 <= i < |s| => LowerChar(s[i]))
  }

  /** The text Python prints for a number it reads. */
  type Reading = NumberText -> NumberText

  /** A decoded text with its numbers as Python holds them. */
  function Read(v: Json, reading: Reading): Json {
    match v
    case Num(literal) => Num(reading(literal))
    case Arr(items) => Arr(seq(|items|, i requires 0 <= i < |items| => Read(items[i], reading)))
    case Obj(fields) => Obj(map k | k in fields :: Read(fields[k], reading))
    case _ => v
  }

  /** A response as recorded or fetched; `headers`, when present, is a table. */
  predicate IsResponse(payload: map<string, Json>) {
    "headers" in payload ==> payload["headers"].Obj?
  }

  function StatusOf(payload: map<string, Json>): Json {
    if "status" in payload then payload["status"] else Null
  }

  /** The lower-cased names of the headers that are not ignored. */
  function HeaderNames(payload: map<string, Json>): set<string>
    requires IsResponse(payload)
  {
    if "headers" in payload
    then set k | k in payload["headers"].fields && Lower(k) !in IGNORED_HEADERS :: Lower(k)
    else {}
  }

  /** The body to compare: decoded and stripped when it is JSON text, otherwise as it stands. */
  function BodyOf(payload: map<string, Json>, reading: Reading): Json {
    var body := if "body" in payload then payload["body"] else Str("");
    if !body.Str? then body else
    match Parse(body.text, true)
    case None => body
    case Some(decoded) => StripJitter(Read(decoded, reading))
  }

  function Texts(names: seq<string>): (texts: seq<Json>)
    ensures |texts| == |names| && forall i :: 0 <= i < |names| ==> texts[i] == Str(names[i])
  {
    seq(|names|, i requires 0 <= i < |names| => Str(names[i]))
  }

  /** `_normalize_response`. */
  function Normalize(payload: map<string, Json>, reading: Reading): map<string, Json>
    requires IsResponse(payload)
  {
    Normalized(StatusOf(payload), HeaderNames(payload), BodyOf(payload, reading))
  }

  function Normalized(status: Json, headers: set<string>, body: Json): map<string, Json> {
    map["status" := status, "headers_keys" := Arr(Texts(Sorted(headers))), "body" := body]
  }

  /** The comparison of one gateway's cassette with its live response. */
  method CheckResponses(cassette: map<string, Json>, live: map<string, Json>, reading: Reading)
      returns (drift: seq<Finding>)
    requires IsResponse(cassette) && IsResponse(live)
    ensures drift == Diff(Obj(Normalize(cassette, reading)), Obj(Normalize(live, reading)), "")
  {
    drift := ComputeDiff(Obj(Normalize(cassette, reading)), Obj(Normalize(live, reading)), "");
  }

  lemma TextListsSame(x: seq<string>, y: seq<string>)
    ensures SameValue(Arr(Texts(x)), Arr(Texts(y))) <==> x == y
  {
    ArraysSame(Arr(Texts(x)), Arr(Texts(y)));
    assert forall i :: 0 <= i < |x| && i < |y| ==> (SameValue(Texts(x)[i], Texts(y)[i]) <==> x[i] == y[i]);
  }

  lemma TextsSame(a: set<string>, b: set<string>)
    ensures SameValue(Arr(Texts(Sorted(a))), Arr(Texts(Sorted(b)))) <==> a == b
  {
    TextListsSame(Sorted(a), Sorted(b));
    if Sorted(a) == Sorted(b) {
      forall k ensures k in a <==> k in b {
        assert k in Sorted(a) <==> k in Sorted(b);
      }
    }
  }

  lemma TripleSame(a: map<string, Json>, b: map<string, Json>)
    requires a.Keys == b.Keys == {"status", "headers_keys", "body"}
    ensures SameValue(Obj(a), Obj(b)) <==>
      SameValue(a["status"], b["status"]) && SameValue(a["headers_keys"], b["headers_keys"]) &&
      SameValue(a["body"], b["body"])
  {
    ObjectsSame(Obj(a), Obj(b), ["status", "headers_keys", "body"]);
    if SameValue(Obj(a), Obj(b)) {
      var keys := ["status", "headers_keys", "body"];
      assert keys[0] in keys && keys[1] in keys && keys[2] in keys;
      assert SameAt(Obj(a), Obj(b), "status") && SameAt(Obj(a), Obj(b), "headers_keys") &&
        SameAt(Obj(a), Obj(b), "body");
    }
  }

  /**
    No drift is reported exactly when the statuses are the same, the same non-ignored
    headers are present, and the bodies are the same once decoded and stripped.
   */
  lemma NoDriftIff(cassette: map<string, Json>, live: map<string, Json>, reading: Reading)
    requires IsResponse(cassette) && IsResponse(live)
    ensures Diff(Obj(Normalize(cassette, reading)), Obj(Normalize(live, reading)), "") == [] <==>
      SameValue(StatusOf(cassette), StatusOf(live)) &&
      HeaderNames(cassette) == HeaderNames(live) &&
      SameValue(BodyOf(cassette, reading), BodyOf(live, reading))
  {
    NormalizedSame(StatusOf(cassette), HeaderNames(cassette), BodyOf(cassette, reading),
                   StatusOf(live), HeaderNames(live), BodyOf(live, reading));
  }

  lemma NoFindingsInTriples(a: map<string, Json>, b: map<string, Json>)
    requires a.Keys == b.Keys == {"status", "headers_keys", "body"}
    ensures Diff(Obj(a), Obj(b), "") == [] <==>
      SameValue(a["status"], b["status"]) && SameValue(a["headers_keys"], b["headers_keys"]) &&
      SameValue(a["body"], b["body"])
  {
    NoFindingsIffSame(Obj(a), Obj(b), "");
    TripleSame(a, b);
  }

  lemma NormalizedSame(status: Json, headers: set<string>, body: Json, status': Json, headers': set<string>,
                       body': Json)
    ensures Diff(Obj(Normalized(status, headers, body)), Obj(Normalized(status', headers', body')), "") == [] <==>
      SameValue(status, status') && headers == headers' && SameValue(body, body')
  {
    hide Diff, SameValue, Sorted, Texts;
    NoFindingsInTriples(Normalized(status, headers, body), Normalized(status', headers', body'));
    TextsSame(headers, headers');
  }

  /** Swapping cassette and live response reports drift in the same places. */
  lemma SwapReportsSamePlaces(cassette: map<string, Json>, live: map<string, Json>, reading: Reading)
    requires IsResponse(cassette) && IsResponse(live)
    ensures var d := Diff(Obj(Normalize(cassette, reading)), Obj(Normalize(live, reading)), "");
      var e := Diff(Obj(Normalize(live, reading)), Obj(Normalize(cassette, reading)), "");
      |e| == |d| && forall i :: 0 <= i < |d| ==> e[i].path == d[i].path && e[i] == Flip(d[i])
  {
    SwapFlips(Obj(Normalize(cassette, reading)), Obj(Normalize(live, reading)), "");
  }
}
