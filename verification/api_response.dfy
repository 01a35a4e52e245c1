/** API/Errors/ApiResponse.cs: an error response with a status code and a
    message that falls back to a fixed text for four well-known codes. */
module ApiResponses {
  import opened Wrappers

  datatype ApiResponse = ApiResponse(statusCode: int, message: Option<string>)

  const BadRequestText := "A bad request, you have made "
  const UnauthorizedText := "Authorized, you are not"
  const NotFoundText := "Resource found, it was not"
  const ServerErrorText := "Errors are the to the dark side. Errors lead to anger. Anger leads to hate. Hate leads to career change "

  /** `GetDefultMessageForStatusCode`: a text for 400, 401, 404 and 500, `null`
      for every other code. */
  function DefaultMessage(statusCode: int): (r: Option<string>)
    ensures r.Some? <==> statusCode in {400, 401, 404, 500}
  {
    match statusCode
    case 400 => Some(BadRequestText)
    case 401 => Some(UnauthorizedText)
    case 404 => Some(NotFoundText)
    case 500 => Some(ServerErrorText)
    case _ => None
  }

  /** The constructor: the code is stored as given; the message is the given
      one unless it is `null`, then the default for the code. */
  function NewApiResponse(statusCode: int, message: Option<string> := None): (r: ApiResponse)
    ensures r.statusCode == statusCode
    ensures message.Some? ==> r.message == message
    ensures message.None? && statusCode !in {400, 401, 404, 500} ==> r.message.None?
    ensures message.None? && statusCode in {400, 401, 404, 500} ==> r.message.Some?
  {
    ApiResponse(statusCode, if message.Some? then message else DefaultMessage(statusCode))
  }

  /** The four default texts, each tied to its code, and all distinct. */
  lemma DefaultTexts()
    ensures NewApiResponse(400).message == Some(BadRequestText)
    ensures NewApiResponse(401).message == Some(UnauthorizedText)
    ensures NewApiResponse(404).message == Some(NotFoundText)
    ensures NewApiResponse(500).message == Some(ServerErrorText)
    ensures |{BadRequestText, UnauthorizedText, NotFoundText, ServerErrorText}| == 4
  {
  }
}
