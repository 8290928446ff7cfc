/** The parts of Django's request and response objects the clients touch. */
module Http {

  /** An inbound request; only its query parameters (`request.GET.dict()`) are read. */
  datatype HttpRequest = HttpRequest(query: map<string, string>)

  /** An outbound response with its status code and the two headers the clients set. */
  datatype HttpResponse = HttpResponse(statusCode: int, location: string, contentType: string)

  /** One outbound form POST: target URL and form-encoded body. */
  datatype PostRequest = PostRequest(url: string, body: string)

  /** `requests.post(url, data).text`, an oracle from request to response text. */
  type Transport = (string, string) -> string

  const Found: int := 302
}
