/** The analysis lambda's entry point: the S3 key is dug out of the queue event (the event's
    first record carries, as JSON text, an S3 notification whose first record names the
    object), the reports run on it, and the handler answers with the key. */
module TriggerEvent {
  import opened Wrappers

  /** A decoded JSON value; numbers are integers here. */
  datatype Json =
    | JNull
    | JBool(b: bool)
    | JNumber(n: int)
    | JString(s: string)
    | JArray(items: seq<Json>)
    | JObject(fields: map<string, Json>)

  /** What one Python subscript or `json.loads` call gives: the value, or the exception. */
  datatype Step =
    | Value(v: Json)
    | KeyErr
    | IndexErr
    | TypeErr
    | DecodeErr

  /** Why the handler fails: the `ValueError` its `except` clause raises for a missing key, a
      missing index or an undecodable body, or a `TypeError` that escapes it. */
  datatype HandlerError = NoKeyInEvent(event: Json) | TypeFault | ReportsFailed(key: Json)

  /** `v[name]`: a dict yields the entry or `KeyError`; every other kind of value rejects a
      string subscript with `TypeError`. */
  function Field(v: Json, name: string): (r: Step)
    ensures r.Value? <==> v.JObject? && name in v.fields
    ensures r.KeyErr? <==> v.JObject? && name !in v.fields
    ensures r.TypeErr? <==> !v.JObject?
  {
    match v
    case JObject(fields) => if name in fields then Value(fields[name]) else KeyErr
    case _ => TypeErr
  }

  /** `v[0]`: a list or string yields its first item (a one-character string) or
      `IndexError` when empty; a dict has no key `0` (JSON keys are strings), so `KeyError`;
      anything else is not subscriptable. */
  function First(v: Json): (r: Step)
    ensures r.Value? <==> (v.JArray? && v.items != []) || (v.JString? && v.s != [])
    ensures r.IndexErr? <==> (v.JArray? && v.items == []) || (v.JString? && v.s == [])
  {
    match v
    case JArray(items) => if items == [] then IndexErr else Value(items[0])
    case JString(s) => if s == [] then IndexErr else Value(JString([s[0]]))
    case JObject(_) => KeyErr
    case _ => TypeErr
  }

  /** `json.loads(v)`: text is decoded by `decode` (`None` is a `JSONDecodeError`); any
      other kind of value is refused with `TypeError`. */
  function Loads(v: Json, decode: string -> Option<Json>): (r: Step)
    ensures r.Value? <==> v.JString? && decode(v.s).Some?
    ensures r.TypeErr? <==> !v.JString?
  {
    match v
    case JString(text) => if decode(text).None? then DecodeErr else Value(decode(text).value)
    case _ => TypeErr
  }

  /** The next step of the chain, once the previous one gave a value. */
  function Then(prev: Step, next: Json -> Step): Step {
    if prev.Value? then next(prev.v) else prev
  }

  /** `json.loads(event["Records"][0]["body"])["Records"][0]["s3"]["object"]["key"]`, step by step. */
  function KeyStep(event: Json, decode: string -> Option<Json>): Step {
    var body := Then(Then(Then(Field(event, "Records"), First), v => Field(v, "body")), v => Loads(v, decode));
    Then(Then(Then(Then(Then(body, v => Field(v, "Records")), First), v => Field(v, "s3")), v => Field(v, "object")),
      v => Field(v, "key"))
  }

  /** The `try`/`except` around the extraction: the three caught exceptions become the
      handler's `ValueError`, a `TypeError` escapes as it is. */
  function ExtractKey(event: Json, decode: string -> Option<Json>): Result<Json, HandlerError> {
    match KeyStep(event, decode)
    case Value(k) => Success(k)
    case TypeErr => Failure(TypeFault)
    case _ => Failure(NoKeyInEvent(event))
  }

  /** The shape of an event the handler accepts with key `k`, spelled out level by level. */
  predicate CarriesKey(event: Json, decode: string -> Option<Json>, k: Json) {
    && event.JObject? && "Records" in event.fields
    && var records := event.fields["Records"];
    && records.JArray? && records.items != []
    && records.items[0].JObject? && "body" in records.items[0].fields
    && var body := records.items[0].fields["body"];
    && body.JString? && decode(body.s).Some?
    && var note := decode(body.s).value;
    && note.JObject? && "Records" in note.fields
    && var noteRecords := note.fields["Records"];
    && noteRecords.JArray? && noteRecords.items != []
    && noteRecords.items[0].JObject? && "s3" in noteRecords.items[0].fields
    && var s3 := noteRecords.items[0].fields["s3"];
    && s3.JObject? && "object" in s3.fields
    && var obj := s3.fields["object"];
    && obj.JObject? && "key" in obj.fields
    && obj.fields["key"] == k
  }

  /** The extraction yields `k` exactly when the event has that shape. */
  lemma ExtractKeyExact(event: Json, decode: string -> Option<Json>, k: Json)
    ensures ExtractKey(event, decode) == Success(k) <==> CarriesKey(event, decode, k)
  {
  }

  /** The handler: extract the key, run the reports on it (`reports` stands for loading the
      population and BLS data and printing the reports; `false` is an exception there), and
      answer with the status and the key. An extraction failure raises before any data is
      loaded. */
  function Handler(event: Json, decode: string -> Option<Json>, reports: Json -> bool): (r: Result<Json, HandlerError>)
    ensures r.Success? <==> ExtractKey(event, decode).Success? && reports(ExtractKey(event, decode).value)
    ensures r.Success? ==> r.value == JObject(map["status" := JString("analytics-done"), "key" := ExtractKey(event, decode).value])
    ensures ExtractKey(event, decode).Failure? ==> r == Failure(ExtractKey(event, decode).error)
  {
    match ExtractKey(event, decode)
    case Failure(e) => Failure(e)
    case Success(key) =>
      if reports(key) then Success(JObject(map["status" := JString("analytics-done"), "key" := key]))
      else Failure(ReportsFailed(key))
  }

  /** An event whose `Records` list starts with the record `rec`. */
  predicate FirstRecordIs(event: Json, rec: map<string, Json>) {
    && event.JObject? && "Records" in event.fields
    && event.fields["Records"].JArray? && event.fields["Records"].items != []
    && event.fields["Records"].items[0] == JObject(rec)
  }

  /** A notification that lacks a part of the path to the key: no `Records`, an empty
      `Records` list, or a first record without `s3`, an `s3` without `object`, or an
      `object` without `key`. */
  predicate LacksKeyPath(note: Json) {
    && note.JObject?
    && ("Records" in note.fields ==>
      var records := note.fields["Records"];
      || records == JArray([])
      || (&& records.JArray? && records.items != [] && records.items[0].JObject?
          && var first := records.items[0].fields;
          ("s3" in first ==>
            var s3 := first["s3"];
            && s3.JObject?
            && ("object" in s3.fields ==>
              var obj := s3.fields["object"];
              obj.JObject? && "key" !in obj.fields))))
  }

  /** An event without `Records` raises the handler's `ValueError`. */
  lemma NoRecordsRaises(event: Json, decode: string -> Option<Json>)
    requires event.JObject? && "Records" !in event.fields
    ensures ExtractKey(event, decode) == Failure(NoKeyInEvent(event))
  {
  }

  /** An event whose `Records` list is empty raises the handler's `ValueError`. */
  lemma EmptyRecordsRaises(event: Json, decode: string -> Option<Json>)
    requires event.JObject? && "Records" in event.fields && event.fields["Records"] == JArray([])
    ensures ExtractKey(event, decode) == Failure(NoKeyInEvent(event))
  {
  }

  /** A first record without `body` raises the handler's `ValueError`, whatever follows it. */
  lemma NoBodyRaises(event: Json, decode: string -> Option<Json>, rec: map<string, Json>)
    requires FirstRecordIs(event, rec) && "body" !in rec
    ensures ExtractKey(event, decode) == Failure(NoKeyInEvent(event))
  {
  }

  /** A body that does not decode raises the handler's `ValueError`. */
  lemma UndecodableBodyRaises(event: Json, decode: string -> Option<Json>, rec: map<string, Json>, text: string)
    requires FirstRecordIs(event, rec) && "body" in rec && rec["body"] == JString(text)
    requires decode(text).None?
    ensures ExtractKey(event, decode) == Failure(NoKeyInEvent(event))
  {
  }

  /** A body that decodes to a notification lacking a part of the path to the key raises the
      handler's `ValueError`. */
  lemma NoteMissingPartRaises(event: Json, decode: string -> Option<Json>, rec: map<string, Json>, text: string)
    requires FirstRecordIs(event, rec) && "body" in rec && rec["body"] == JString(text)
    requires decode(text).Some? && LacksKeyPath(decode(text).value)
    ensures ExtractKey(event, decode) == Failure(NoKeyInEvent(event))
  {
  }

  /** A body that is not text makes `json.loads` raise `TypeError`, which the handler does
      not catch. */
  lemma NonTextBodyEscapes(event: Json, decode: string -> Option<Json>, rec: map<string, Json>)
    requires FirstRecordIs(event, rec) && "body" in rec && !rec["body"].JString?
    ensures ExtractKey(event, decode) == Failure(TypeFault)
  {
  }

  /** The test notification S3 sends when a subscription is set up has no `Records`, so the
      handler raises on it instead of ignoring it. */
  lemma TestEventRaises(decode: string -> Option<Json>, reports: Json -> bool, text: string)
    requires decode(text) == Some(JObject(map["Event" := JString("s3:TestEvent")]))
    ensures var event := JObject(map["Records" := JArray([JObject(map["body" := JString(text)])])]);
      Handler(event, decode, reports) == Failure(NoKeyInEvent(event))
  {
    var rec := map["body" := JString(text)];
    var event := JObject(map["Records" := JArray([JObject(rec)])]);
    NoteMissingPartRaises(event, decode, rec, text);
  }

  /** A well-formed notification for `datausa/test.json` is answered with that key. */
  lemma AnswersWithKey(decode: string -> Option<Json>, reports: Json -> bool, text: string)
    requires var key := JString("datausa/test.json");
      decode(text) == Some(JObject(map["Records" := JArray([JObject(map["s3" := JObject(map["object" := JObject(map["key" := key])])])])]))
      && reports(key)
    ensures var event := JObject(map["Records" := JArray([JObject(map["body" := JString(text)])])]);
      var r := Handler(event, decode, reports);
      && r.Success? && r.value.JObject?
      && r.value.fields["status"] == JString("analytics-done")
      && r.value.fields["key"] == JString("datausa/test.json")
  {
    var event := JObject(map["Records" := JArray([JObject(map["body" := JString(text)])])]);
    ExtractKeyExact(event, decode, JString("datausa/test.json"));
  }
}
