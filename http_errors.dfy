/** `HttpException`: a failed request, with the status code and the raw body. */
module HttpErrors {
  import opened Wrappers
  import opened Php
  import opened JsonValues

  /**
   * `code` is the exception code handed to the base exception; the source
   * always passes the status code there, which `NewHttpException` enforces.
   */
  datatype HttpException = HttpException(message: string, code: int, statusCode: int, responseBody: string) {
    function GetMessage(): string { message }
    function GetCode(): int { code }
    function GetStatusCode(): int { statusCode }
    function GetResponseBody(): string { responseBody }

    /** The body decoded as a JSON array, if it is one. */
    function GetDecodedResponse(decode: Decoder): (r: Option<Value>)
      ensures EmptyString(responseBody) ==> r == None
      ensures r.Some? ==> IsArray(r.value) && decode(responseBody) == r
      ensures !EmptyString(responseBody) && decode(responseBody).Some? && !IsArray(decode(responseBody).value) ==> r == None
      ensures !EmptyString(responseBody) && decode(responseBody).Some? && IsArray(decode(responseBody).value) ==> r == decode(responseBody)
    {
      DecodeArray(decode, responseBody)
    }
  }

  /** `new HttpException($message, $statusCode, $responseBody)`, with the source's defaults 0 and "". */
  function NewHttpException(message: string, statusCode: int := 0, responseBody: string := ""): (e: HttpException)
    ensures e.GetMessage() == message
    ensures e.GetStatusCode() == statusCode && e.GetResponseBody() == responseBody
    ensures e.GetCode() == e.GetStatusCode()
  {
    HttpException(message, statusCode, statusCode, responseBody)
  }
}
