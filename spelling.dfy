/** The spelling service as the worker sees it: an HTTP response whose JSON body
    has been deserialised, and the mapping from that response to a suggested spelling. */
module Spelling {
  import opened Results

  /** One suggestion of the service; its text may be null in the JSON. */
  datatype Suggestion = Suggestion(suggestion: Option<string>)

  /** A token the service flagged, with its suggestions (a null list when absent from the JSON). */
  datatype FlaggedToken = FlaggedToken(token: string, suggestions: Option<seq<Suggestion>>)

  /** The deserialised response body; FlaggedTokens is null when absent from the JSON. */
  datatype SpellCheckResponse = SpellCheckResponse(flaggedTokens: Option<seq<FlaggedToken>>)

  /** What PostAsync returns: a status code, the raw content, and the body it deserialises to. */
  datatype HttpResponse = HttpResponse(statusCode: int, content: string, body: SpellCheckResponse)

  /** HttpResponseMessage.IsSuccessStatusCode. */
  predicate IsSuccessStatusCode(code: int) {
    200 <= code <= 299
  }

  /** The response's flagged-token list is null. */
  predicate NoTokenList(body: SpellCheckResponse) {
    body.flaggedTokens.None?
  }

  /** The first flagged token exists and its suggestion list is null. */
  predicate NoSuggestionList(body: SpellCheckResponse) {
    && body.flaggedTokens.Some?
    && |body.flaggedTokens.value| > 0
    && body.flaggedTokens.value[0].suggestions.None?
  }

  /** The first suggestion of the first flagged token exists and has a text. */
  predicate HasFirstSuggestion(body: SpellCheckResponse) {
    && body.flaggedTokens.Some?
    && |body.flaggedTokens.value| > 0
    && body.flaggedTokens.value[0].suggestions.Some?
    && |body.flaggedTokens.value[0].suggestions.value| > 0
    && body.flaggedTokens.value[0].suggestions.value[0].suggestion.Some?
  }

  /** text is the suggestion text of some suggestion of some flagged token in the body. */
  predicate Offers(body: SpellCheckResponse, text: string) {
    && body.flaggedTokens.Some?
    && exists t, g :: 0 <= t < |body.flaggedTokens.value|
        && body.flaggedTokens.value[t].suggestions.Some?
        && 0 <= g < |body.flaggedTokens.value[t].suggestions.value|
        && body.flaggedTokens.value[t].suggestions.value[g].suggestion == Some(text)
  }

  /** GetCorrectSpelling once the response is in: a non-success status throws;
      otherwise FlaggedTokens.FirstOrDefault()?.Suggestions.FirstOrDefault()?.suggestion ?? word,
      where FirstOrDefault on a null list throws ArgumentNullException. */
  function GetCorrectSpelling(word: string, response: HttpResponse): (r: Result<string, Error>)
    ensures !IsSuccessStatusCode(response.statusCode) ==>
              r == Failure(RequestFailed(response.statusCode, response.content))
    ensures IsSuccessStatusCode(response.statusCode) ==>
              (r.Failure? <==> NoTokenList(response.body) || NoSuggestionList(response.body))
    ensures r.Failure? && IsSuccessStatusCode(response.statusCode) ==> r.error == NullArgument
    ensures r.Success? ==> r.value == word || Offers(response.body, r.value)
    ensures r.Success? && HasFirstSuggestion(response.body) ==>
              r.value == response.body.flaggedTokens.value[0].suggestions.value[0].suggestion.value
    ensures r.Success? && !HasFirstSuggestion(response.body) ==> r.value == word
  {
    if !IsSuccessStatusCode(response.statusCode) then
      Failure(RequestFailed(response.statusCode, response.content))
    else
      match response.body.flaggedTokens
      case None => Failure(NullArgument)
      case Some(tokens) =>
        if tokens == [] then Success(word)
        else
          match tokens[0].suggestions
          case None => Failure(NullArgument)
          case Some(suggestions) =>
            if suggestions == [] then Success(word)
            else Success(suggestions[0].suggestion.GetOr(word))
  }
}
