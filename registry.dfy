/**
 * `registryProvider` of `src/registry.ts`: it fetches `<endpoint>/<input>.json`
 * and hands the manifest back once the status and the manifest pass their
 * checks. The fetch is a parameter of the model.
 */
module Registry {
  import opened Wrappers
  import opened Text
  import opened Types
  import opened ProviderCommon

  const DefaultRegistry := "https://raw.githubusercontent.com/unjs/giget/main/templates"

  /** A response: its status line and what `res.json()` yields (an error when the body is not JSON). */
  datatype Response = Response(status: nat, statusText: string, body: Result<Json, string>)

  /** The endpoint in force: the default parameter applies when none is passed. */
  function Endpoint(registryEndpoint: Option<string>): (e: string)
    ensures registryEndpoint.Some? ==> e == registryEndpoint.value
    ensures registryEndpoint.None? ==> e == DefaultRegistry
  {
    if registryEndpoint.Some? then registryEndpoint.value else DefaultRegistry
  }

  /** The manifest URL of a template. */
  function RegistryUrl(endpoint: string, input: string): string {
    endpoint + "/" + input + ".json"
  }

  /** The template name back out of its manifest URL. */
  function ReadRegistryUrl(endpoint: string, url: string): (r: Option<string>)
    ensures r.Some? ==> RegistryUrl(endpoint, r.value) == url
  {
    var head := endpoint + "/";
    if StartsWith(url, head) && EndsWith(url[|head|..], ".json") then
      var rest := url[|head|..];
      var input := rest[..|rest| - 5];
      assert rest == input + ".json";
      assert url == head + rest;
      Some(input)
    else None
  }

  /** Reading a manifest URL gives the template name back. */
  lemma RegistryUrlRoundTrip(endpoint: string, input: string)
    ensures ReadRegistryUrl(endpoint, RegistryUrl(endpoint, input)) == Some(input)
  {
    var head := endpoint + "/";
    var url := RegistryUrl(endpoint, input);
    assert url == head + (input + ".json");
    assert url[..|head|] == head;
    var rest := url[|head|..];
    assert rest == input + ".json";
    assert rest[|rest| - 5..] == ".json";
    assert rest[..|rest| - 5] == input;
  }

  /**
   * The provider the closure implements: a rejected fetch propagates, a status
   * of 400 or more is reported with the status line, a body that is not JSON
   * propagates, and the manifest must pass `CheckManifest` under the URL.
   */
  function Provide(registryEndpoint: Option<string>, input: string, fetched: Result<Response, string>)
    : (r: Result<Template, Error>)
    ensures r.Ok? ==> fetched.Ok? && fetched.value.body.Ok? && r.value == Manifest(fetched.value.body.value)
  {
    var url := RegistryUrl(Endpoint(registryEndpoint), input);
    match fetched
    case Err(cause) => Err(NetworkError(cause))
    case Ok(res) =>
      if res.status >= 400 then Err(RegistryStatus(input, url, res.status, res.statusText))
      else
        match res.body
        case Err(cause) => Err(InvalidJson(cause))
        case Ok(info) =>
          match CheckManifest(info, url)
          case Err(e) => Err(e)
          case Ok(_) => Ok(Manifest(info))
  }

  /** The provider succeeds exactly for a status below 400 and a complete manifest, which it returns unchanged. */
  lemma ProvideSucceedsExactly(registryEndpoint: Option<string>, input: string, fetched: Result<Response, string>)
    ensures Provide(registryEndpoint, input, fetched).Ok?
      <==> fetched.Ok? && fetched.value.status < 400 && fetched.value.body.Ok? && ManifestComplete(fetched.value.body.value)
    ensures Provide(registryEndpoint, input, fetched).Ok? ==>
      Provide(registryEndpoint, input, fetched).value == Manifest(fetched.value.body.value)
  {
  }

  /** The status error is raised exactly for a status of 400 or more, whatever the body. */
  lemma StatusErrorExactly(registryEndpoint: Option<string>, input: string, res: Response)
    ensures var url := RegistryUrl(Endpoint(registryEndpoint), input);
      Provide(registryEndpoint, input, Ok(res)) == Err(RegistryStatus(input, url, res.status, res.statusText))
      <==> res.status >= 400
  {
  }

  /** An incomplete manifest behind a status below 400 is rejected, naming the manifest URL. */
  lemma IncompleteManifest(registryEndpoint: Option<string>, input: string, res: Response)
    requires res.status < 400 && res.body.Ok? && res.body.value != JNull
    requires !ManifestComplete(res.body.value)
    ensures Provide(registryEndpoint, input, Ok(res))
      == Err(InvalidTemplateInfo(RegistryUrl(Endpoint(registryEndpoint), input)))
  {
  }

  /** A 404 is reported with the status line in the message. */
  lemma NotFoundMessage()
    ensures var r := Provide(Some("test"), "test", Ok(Response(404, "Not Found", Ok(JNull))));
      && r.Err?
      && r.error.Message()
         == "Failed to download " + "test" + " template info from " + "test/test.json" + ": " + "404" + " " + "Not Found"
  {
    assert NatToString(4) == "4";
    assert NatToString(40) == "40";
    assert NatToString(404) == "404";
    assert RegistryUrl("test", "test") == "test/test.json";
  }

  /** An empty manifest is rejected with the manifest URL in the message. */
  lemma EmptyManifestMessage()
    ensures var r := Provide(Some("test"), "test", Ok(Response(200, "ok", Ok(JObj(map[])))));
      && r.Err?
      && r.error.Message() == "Invalid template info from " + "test/test.json" + ". name or tar fields are missing!"
  {
    assert RegistryUrl("test", "test") == "test/test.json";
    var e := InvalidTemplateInfo("test/test.json");
    assert CheckManifest(JObj(map[]), "test/test.json") == Err(e);
    assert Provide(Some("test"), "test", Ok(Response(200, "ok", Ok(JObj(map[]))))) == Err(e);
    assert e.Message() == "Invalid template info from " + "test/test.json" + ". name or tar fields are missing!";
  }

  /** 399 passes the status check; 400 does not. */
  lemma StatusBoundary(input: string, body: Result<Json, string>)
    ensures !Provide(None, input, Ok(Response(399, "", body))).Err?
      || !Provide(None, input, Ok(Response(399, "", body))).error.RegistryStatus?
    ensures Provide(None, input, Ok(Response(400, "", body))).Err?
      && Provide(None, input, Ok(Response(400, "", body))).error.RegistryStatus?
  {
  }
}
