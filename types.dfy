/**
 * The records of `src/types.ts` (GitInfo, TemplateInfo), the JSON values the
 * fetched manifests are made of, and the errors the modelled code throws.
 */
module Types {
  import opened Wrappers
  import Text

  /** A parsed source identifier. The provider is any string: `parseInput` casts. */
  datatype GitInfo = GitInfo(provider: string, repo: string, subdir: string, ref: string)

  /** Request headers as the object literal writes them: `None` is a key holding `undefined`. */
  type Headers = map<string, Option<string>>

  /** A template descriptor built by a provider. Optional fields the literal omits are `None`. */
  datatype TemplateInfo = TemplateInfo(
    name: string,
    tar: string,
    version: Option<string>,
    subdir: Option<string>,
    url: Option<string>,
    defaultDir: Option<string>,
    headers: Option<Headers>)

  /** A JSON value as `Response.json()` yields it (numbers are integers here). */
  datatype Json =
    | JNull
    | JBool(b: bool)
    | JNum(n: int)
    | JStr(str: string)
    | JArr(items: seq<Json>)
    | JObj(fields: map<string, Json>)

  /** What a provider hands back: a descriptor it built, or a fetched manifest returned as it is. */
  datatype Template = Built(info: TemplateInfo) | Manifest(json: Json)

  /** JavaScript truthiness of a possibly undefined string. */
  predicate Truthy(o: Option<string>) {
    o.Some? && o.value != ""
  }

  /** JavaScript truthiness of a possibly undefined JSON value. */
  predicate JsonTruthy(o: Option<Json>) {
    match o
    case None => false
    case Some(JNull) => false
    case Some(JBool(b)) => b
    case Some(JNum(n)) => n != 0
    case Some(JStr(s)) => s != ""
    case Some(JArr(_)) => true
    case Some(JObj(_)) => true
  }

  /**
   * Reading property `key` of a JSON value: an object gives the member or
   * `undefined`; `null` throws; any other value has no such property.
   */
  function Property(v: Json, key: string): (r: Result<Option<Json>, Error>)
    ensures r.Err? <==> v == JNull
    ensures v.JObj? ==> r == Ok(if key in v.fields then Some(v.fields[key]) else None)
  {
    match v
    case JNull => Err(TypeError("Cannot read properties of null"))
    case JObj(fields) => Ok(if key in fields then Some(fields[key]) else None)
    case _ => Ok(None)
  }

  /** The errors the modelled code throws, with the message each one carries. */
  datatype Error =
    | TypeError(reason: string)
    | DestinationExists(path: string)
    | NetworkError(cause: string)
    | InvalidJson(cause: string)
    | RegistryStatus(input: string, url: string, status: nat, statusText: string)
    | InvalidTemplateInfo(origin: string)
  {
    function Message(): string {
      match this
      case TypeError(reason) => reason
      case DestinationExists(path) => "Destination " + path + " already exists."
      case NetworkError(cause) => cause
      case InvalidJson(cause) => cause
      case RegistryStatus(input, url, status, statusText) =>
        "Failed to download " + input + " template info from " + url + ": "
        + Text.NatToString(status) + " " + statusText
      case InvalidTemplateInfo(origin) =>
        "Invalid template info from " + origin + ". name or tar fields are missing!"
    }
  }
}
