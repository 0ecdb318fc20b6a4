/**
 * `BaseClient`: the verb helpers that compose a request and the response
 * handling that turns the transport's answer into data or an `HttpException`.
 */
module Client {
  import opened Wrappers
  import opened Php
  import opened PhpArrays
  import opened JsonValues
  import opened HttpErrors
  import opened Responses
  import opened Configuration
  import NativeTransport

  /** Request headers, in order. */
  type RequestHeaders = PhpArray<string, string>

  /** One call of the transport interface's `request`. */
  datatype Request = Request(verb: string, url: string, headers: RequestHeaders, body: NativeTransport.Body)

  /** The transport interface: a response, or the exception it throws. */
  type Transport = Request -> Result<HttpResponse, HttpException>

  /** The library functions and the network the client runs against. */
  datatype Runtime = Runtime(
    decode: Decoder,
    encode: NativeTransport.Encoder,
    buildQuery: RequestHeaders -> string,
    network: NativeTransport.Network)

  const AcceptJson: RequestHeaders := [("Accept", "application/json")]

  const JsonHeaders: RequestHeaders := [("Content-Type", "application/json"), ("Accept", "application/json")]

  function ServerErrorMessage(statusCode: int): string {
    "Server error (HTTP " + IntToString(statusCode) + ")"
  }

  function ClientErrorMessage(statusCode: int): string {
    "Client error (HTTP " + IntToString(statusCode) + ")"
  }

  const DecodeErrorMessage: string := "Unable to decode response as JSON"

  /**
   * `handleResponse`: status first (5xx, then 4xx), then an empty body gives
   * `[]`, then the body must decode to an array.
   */
  function HandleResponse(decode: Decoder, response: HttpResponse): (r: Result<Value, HttpException>)
    // every exception carries the response's status and its body unchanged
    ensures r.Failure? ==> && r.error.GetStatusCode() == response.statusCode
                           && r.error.GetCode() == response.statusCode
                           && r.error.GetResponseBody() == response.body
    // the status class decides before the body is looked at
    ensures response.IsServerError() ==> r.Failure? && r.error.GetMessage() == ServerErrorMessage(response.statusCode)
    ensures response.IsClientError() ==> r.Failure? && r.error.GetMessage() == ClientErrorMessage(response.statusCode)
    ensures response.statusCode >= 400 ==> r.Failure? && r.error.GetMessage() != DecodeErrorMessage
    // below 400: an empty body is the empty array, otherwise what json() gives
    ensures response.statusCode < 400 && EmptyString(response.body) ==> r == Success(Arr([]))
    ensures response.statusCode < 400 && !EmptyString(response.body) ==>
      match response.Json(decode)
      case Some(v) => r == Success(v)
      case None => r.Failure? && r.error.GetMessage() == DecodeErrorMessage
    ensures r.Success? ==> IsArray(r.value)
  {
    MessagesDistinct(response.statusCode, response.statusCode);
    if response.statusCode >= 500 then
      Failure(NewHttpException(ServerErrorMessage(response.statusCode), response.statusCode, response.body))
    else if response.statusCode >= 400 then
      Failure(NewHttpException(ClientErrorMessage(response.statusCode), response.statusCode, response.body))
    else if EmptyString(response.body) then
      Success(Arr([]))
    else
      match decode(response.body)
      case Some(v) =>
        if IsArray(v) then Success(v)
        else Failure(NewHttpException(DecodeErrorMessage, response.statusCode, response.body))
      case None =>
        Failure(NewHttpException(DecodeErrorMessage, response.statusCode, response.body))
  }

  /** The three messages differ, so a caller can tell the failure kinds apart by message too. */
  lemma {:induction false} MessagesDistinct(s: int, t: int)
    ensures ServerErrorMessage(s) != ClientErrorMessage(t)
    ensures ServerErrorMessage(s) != DecodeErrorMessage
    ensures ClientErrorMessage(t) != DecodeErrorMessage
  {
    assert ServerErrorMessage(s)[0] == 'S';
    assert ClientErrorMessage(t)[0] == 'C';
    assert DecodeErrorMessage[0] == 'U';
  }

  /**
   * An exception from `handleResponse` decodes its body exactly as the
   * response's `json()` would; for a decode error that is nothing.
   */
  lemma {:induction false} ErrorBodyDecodesLikeResponse(decode: Decoder, response: HttpResponse)
    requires HandleResponse(decode, response).Failure?
    ensures HandleResponse(decode, response).error.GetDecodedResponse(decode) == response.Json(decode)
    ensures response.statusCode < 400 ==> HandleResponse(decode, response).error.GetDecodedResponse(decode) == None
  {
  }

  /** The transport's native default, `new NativeHttpClient()` with its 30-second timeout. */
  function NativeDefault(rt: Runtime): (t: Transport)
    ensures forall req: Request :: (t(req) ==
      NativeTransport.Outcome(NativeTransport.DefaultTimeout, rt.network, rt.encode, req.verb, req.url, req.headers, req.body))
  {
    (req: Request) => NativeTransport.Outcome(NativeTransport.DefaultTimeout, rt.network, rt.encode,
                                   req.verb, req.url, req.headers, req.body)
  }

  /** The URL `get` requests: the query string is appended only when there is a query. */
  function GetUrl(baseUri: string, path: string, query: RequestHeaders, buildQuery: RequestHeaders -> string): (url: string)
    ensures query == [] ==> url == baseUri + path
    ensures query != [] ==> url == baseUri + path + "?" + buildQuery(query)
  {
    if query == [] then baseUri + path else baseUri + path + "?" + buildQuery(query)
  }

  /**
   * The merged request headers: every caller header with the caller's value,
   * every default the caller did not give, nothing else; the defaults keep
   * their places at the front.
   */
  lemma {:induction false} MergedHeaders(defaults: RequestHeaders, caller: RequestHeaders, name: string)
    ensures name in Keys(caller) ==> Lookup(Merge(defaults, caller), name) == Lookup(caller, name)
    ensures name !in Keys(caller) ==> Lookup(Merge(defaults, caller), name) == Lookup(defaults, name)
    ensures Keys(Merge(defaults, caller)) == Keys(defaults) + Keys(caller)
    ensures forall i :: 0 <= i < |defaults| ==> Merge(defaults, caller)[i].0 == defaults[i].0
  {
  }

  class BaseClient {
    const config: BaseConfig
    const httpClient: Transport
    const runtime: Runtime

    /** `new BaseClient($config, $httpClient)`: the native transport when none is given. */
    constructor (config: BaseConfig, httpClient: Option<Transport>, runtime: Runtime)
      ensures this.config == config && this.runtime == runtime
      ensures this.httpClient == if httpClient.Some? then httpClient.value else NativeDefault(runtime)
    {
      this.config := config;
      this.runtime := runtime;
      if httpClient.Some? {
        this.httpClient := httpClient.value;
      } else {
        this.httpClient := NativeDefault(runtime);
      }
    }

    function GetConfig(): BaseConfig {
      config
    }

    /** One request through the transport; a transport exception passes through unchanged. */
    function Send(request: Request): (r: Result<Value, HttpException>)
      ensures httpClient(request).Failure? ==> r == Failure(httpClient(request).error)
      ensures httpClient(request).Success? ==> r == HandleResponse(runtime.decode, httpClient(request).value)
    {
      match httpClient(request)
      case Failure(e) => Failure(e)
      case Success(response) => HandleResponse(runtime.decode, response)
    }

    /** `get($path, $query, $headers)`. */
    method Get(path: string, query: RequestHeaders, headers: RequestHeaders) returns (r: Result<Value, HttpException>)
      ensures r == Send(Request("GET", GetUrl(config.GetBaseUri(), path, query, runtime.buildQuery), Merge(AcceptJson, headers), []))
    {
      var url := config.GetBaseUri() + path;
      if |query| > 0 {
        url := url + "?" + runtime.buildQuery(query);
      }
      r := Send(Request("GET", url, Merge(AcceptJson, headers), []));
    }

    /** `postJson($path, $payload, $headers)`. */
    method PostJson(path: string, payload: NativeTransport.Body, headers: RequestHeaders) returns (r: Result<Value, HttpException>)
      ensures r == Send(Request("POST", config.GetBaseUri() + path, Merge(JsonHeaders, headers), payload))
    {
      r := Send(Request("POST", config.GetBaseUri() + path, Merge(JsonHeaders, headers), payload));
    }

    /** `putJson($path, $payload, $headers)`. */
    method PutJson(path: string, payload: NativeTransport.Body, headers: RequestHeaders) returns (r: Result<Value, HttpException>)
      ensures r == Send(Request("PUT", config.GetBaseUri() + path, Merge(JsonHeaders, headers), payload))
    {
      r := Send(Request("PUT", config.GetBaseUri() + path, Merge(JsonHeaders, headers), payload));
    }

    /** `delete($path, $headers)`. */
    method Delete(path: string, headers: RequestHeaders) returns (r: Result<Value, HttpException>)
      ensures r == Send(Request("DELETE", config.GetBaseUri() + path, Merge(AcceptJson, headers), []))
    {
      r := Send(Request("DELETE", config.GetBaseUri() + path, Merge(AcceptJson, headers), []));
    }
  }
}
