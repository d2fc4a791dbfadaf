/**
 * The catalogue's data: one record per application, the JSON document the
 * catalogue arrives in, and the normalisation of that document's shape into
 * a list of records.
 */
module Catalog {
  import opened Wrappers

  /** `min_sdk` may be written as a string or as a number. */
  datatype SdkValue = SdkText(text: string) | SdkLevel(level: nat)

  /** One application record. Optional fields are `None` when the key is
      absent; `updated` is the instant the ISO date denotes, as a timestamp. */
  datatype Record = Record(
    name: string,
    package: string,
    version: string,
    description: Option<string>,
    icon: Option<string>,
    sizeBytes: Option<nat>,
    updated: Option<int>,
    minSdk: Option<SdkValue>,
    downloadUrl: string,
    sha256: Option<string>)

  /** A parsed JSON document. An array is taken to hold application records. */
  datatype Json =
    | JNull
    | JBool(b: bool)
    | JNumber(x: real)
    | JString(s: string)
    | JArray(items: seq<Record>)
    | JObject(fields: map<string, Json>)

  /** JavaScript truthiness of a JSON value. */
  predicate Truthy(j: Json) {
    match j
    case JNull => false
    case JBool(b) => b
    case JNumber(x) => x != 0.0
    case JString(s) => s != ""
    case JArray(_) => true
    case JObject(_) => true
  }

  /** Why a parsed document yields no list of records. */
  datatype ShapeError =
    | NullDocument     // reading `.apps` of `null` throws
    | AppsNotAList     // `.apps` is truthy but not an array

  /** `Array.isArray(data) ? data : (data.apps || [])`. */
  function Normalise(data: Json): (r: Result<seq<Record>, ShapeError>)
    ensures data.JArray? ==> r == Success(data.items)
    ensures data.JNull? <==> r == Failure(NullDocument)
    ensures r.Success? && r.value != [] ==>
      data.JArray? || (data.JObject? && "apps" in data.fields && data.fields["apps"] == JArray(r.value))
    ensures data.JObject? && "apps" in data.fields && data.fields["apps"].JArray? ==>
      r == Success(data.fields["apps"].items)
    ensures r == Failure(AppsNotAList) <==>
      data.JObject? && "apps" in data.fields && Truthy(data.fields["apps"]) && !data.fields["apps"].JArray?
    ensures !data.JArray? && !data.JNull? && !(data.JObject? && "apps" in data.fields && Truthy(data.fields["apps"])) ==>
      r == Success([])
  {
    match data
    case JArray(items) => Success(items)
    case JNull => Failure(NullDocument)
    case JObject(fields) =>
      if "apps" in fields && Truthy(fields["apps"]) then
        (match fields["apps"]
         case JArray(items) => Success(items)
         case _ => Failure(AppsNotAList))
      else Success([])
    case _ => Success([])
  }
}
