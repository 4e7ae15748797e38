/**
 * The Telegram bot's decision logic: `query_gemini_api`, which answers with Gemini's text or a
 * fixed message and appends a row to the spreadsheet log only for a real answer, and the
 * prediction that `echo` computes for an incoming message.
 */
module BotApp {
  import opened Wrappers
  import opened PyText
  import opened Gemini
  import opened UrlParser

  /** The row `save_to_excel` appends; the timestamp comes from the clock and is left out. */
  datatype LogRow = LogRow(text: string, response: string, user: string)

  /** The string `query_gemini_api` returns, and the row it logs if it logs one. */
  datatype Query = Query(reply: string, log: Option<LogRow>)

  const BlockedMessage: string := "Content was blocked, but the reason is uncategorized."
  const NoResponseMessage: string := "No response received from the Gemini API."
  const ErrorPrefix: string := "Error: "
  /** What follows the exception text: no response object had been assigned when it was raised. */
  const NoResponseSuffix: string := "\nResponse: None"

  /**
   * The collaborators: `textwrap.dedent`, `model.generate_content` (a `Failure` is the exception
   * it raises) and the article fetch of newspaper3k.
   */
  datatype BotServices = BotServices(
    dedent: string -> string,
    generate: string -> Result<Response, string>,
    fetch: string -> Result<string, string>)

  /** `query_gemini_api`: every exception is caught and reported in the returned string. */
  function QueryGemini(text: string, user: string, services: BotServices): (r: Query)
    ensures r.log.Some? ==> r.log.value == LogRow(text, r.reply, user)
    ensures r.log.Some? <==>
      && services.generate(services.dedent(text)).Success?
      && services.generate(services.dedent(text)).value.blockReason != BlockReasonOther
      && services.generate(services.dedent(text)).value.text.Some?
  {
    match services.generate(services.dedent(text))
    case Failure(e) => Query(ErrorPrefix + e + NoResponseSuffix, None)
    case Success(response) =>
      if response.blockReason == BlockReasonOther then Query(BlockedMessage, None)
      else if response.text.Some? then
        Query(response.text.value, Some(LogRow(text, response.text.value, user)))
      else Query(NoResponseMessage, None)
  }

  /** The three outcomes other than an answer give their fixed strings and write no row. */
  lemma QueryGeminiOutcomes(text: string, user: string, services: BotServices)
    ensures var response := services.generate(services.dedent(text));
      && (response.Failure? ==>
            QueryGemini(text, user, services) == Query(ErrorPrefix + response.error + NoResponseSuffix, None))
      && (response.Success? && response.value.blockReason == BlockReasonOther ==>
            QueryGemini(text, user, services) == Query(BlockedMessage, None))
      && (response.Success? && response.value.blockReason != BlockReasonOther && response.value.text.None? ==>
            QueryGemini(text, user, services) == Query(NoResponseMessage, None))
      && (response.Success? && response.value.blockReason != BlockReasonOther && response.value.text.Some? ==>
            QueryGemini(text, user, services).reply == response.value.text.value)
  {
  }

  /** An exception always surfaces as a reply starting with `Error: `. */
  lemma QueryGeminiErrorPrefix(text: string, user: string, services: BotServices)
    requires services.generate(services.dedent(text)).Failure?
    ensures StartsWith(QueryGemini(text, user, services).reply, ErrorPrefix)
  {
    var e := services.generate(services.dedent(text)).error;
    assert (ErrorPrefix + e + NoResponseSuffix)[..|ErrorPrefix|] == ErrorPrefix;
  }

  const NoContentMessage: string := "No content extracted from the URL. Please provide a valid news article URL."
  const QuotaMarker: string := "429 Resource has been exhausted"
  const TryLaterMessage: string := "Resource has been exhausted. Please try again later."
  const CheckErrorMessage: string := "Error checking the content. Please check your content or url and try again."

  /** A reply that reports an exhausted quota is swapped for the try-later message. */
  function QuotaFilter(q: Query): Query {
    if Contains(q.reply, QuotaMarker) then Query(TryLaterMessage, q.log) else q
  }

  /**
   * The prediction `echo` computes before replying, as the code is written: the no-content
   * message chosen for an empty extraction is overwritten at once by querying Gemini with the
   * empty content. Only extraction can raise here, since `query_gemini_api` catches everything.
   */
  function Echo(text: string, user: string, services: BotServices): Query {
    match ExtractContent(text, services.fetch)
    case Failure(_) => Query(CheckErrorMessage, None)
    case Success(content) => QuotaFilter(QueryGemini(content, user, services))
  }

  /** `echo` as evidently intended: an empty extraction answers with the no-content message. */
  function EchoIntended(text: string, user: string, services: BotServices): Query {
    match ExtractContent(text, services.fetch)
    case Failure(_) => Query(CheckErrorMessage, None)
    case Success(content) =>
      if content == "" then Query(NoContentMessage, None)
      else QuotaFilter(QueryGemini(content, user, services))
  }

  /**
   * The quota rule of `echo`: whatever `query_gemini_api` returned for the extracted content is
   * swapped for the try-later message when the marker occurs anywhere in it, and the row it
   * logged, if any, stays written.
   */
  lemma EchoQuotaRule(text: string, user: string, services: BotServices, content: string)
    requires ExtractContent(text, services.fetch) == Success(content)
    ensures var q := QueryGemini(content, user, services);
      Echo(text, user, services) == (if Contains(q.reply, QuotaMarker) then Query(TryLaterMessage, q.log) else q)
  {
  }

  /** A quota exception from Gemini is answered with the try-later message and nothing is logged. */
  lemma EchoQuotaExhausted(text: string, user: string, services: BotServices, content: string,
                           before: string, after: string)
    requires ExtractContent(text, services.fetch) == Success(content)
    requires services.generate(services.dedent(content)) == Failure(before + QuotaMarker + after)
    ensures Echo(text, user, services) == Query(TryLaterMessage, None)
  {
    ContainsInside(before, QuotaMarker, after);
    ContainsWithin(ErrorPrefix, before + QuotaMarker + after, NoResponseSuffix, QuotaMarker);
  }

  /**
   * An answer of Gemini that mentions the marker is logged as it is, yet the user is told to try
   * again later: the spreadsheet and the reply disagree.
   */
  lemma EchoQuotaAnswerLoggedYetSwapped(text: string, user: string, services: BotServices, content: string,
                                        blockReason: int, before: string, after: string)
    requires ExtractContent(text, services.fetch) == Success(content)
    requires blockReason != BlockReasonOther
    requires services.generate(services.dedent(content)) == Success(Response(blockReason, Some(before + QuotaMarker + after)))
    ensures Echo(text, user, services)
      == Query(TryLaterMessage, Some(LogRow(content, before + QuotaMarker + after, user)))
  {
    ContainsInside(before, QuotaMarker, after);
  }

  /** When extraction raises, the reply is the fixed check-your-input message and nothing is logged. */
  lemma EchoExtractionFailure(text: string, user: string, services: BotServices, services': BotServices)
    requires ExtractContent(text, services.fetch).Failure?
    requires services'.fetch == services.fetch
    ensures Echo(text, user, services) == Query(CheckErrorMessage, None)
    ensures Echo(text, user, services') == Echo(text, user, services)
  {
  }

  /** A row is logged only for an answer Gemini gave to the extracted content, as that answer. */
  lemma EchoLogsOnlyAnswers(text: string, user: string, services: BotServices)
    ensures Echo(text, user, services).log.Some? ==>
      exists content :: 
        && ExtractContent(text, services.fetch) == Success(content)
        && Echo(text, user, services).log == QueryGemini(content, user, services).log
        && Echo(text, user, services).log.value == LogRow(content, QueryGemini(content, user, services).reply, user)
  {
    if Echo(text, user, services).log.Some? {
      var content := ExtractContent(text, services.fetch).value;
      assert ExtractContent(text, services.fetch) == Success(content);
    }
  }

  /**
   * The no-content message never survives: with an empty extraction the code as written sends
   * the empty content to Gemini, and for instance a Gemini exception `e` is what the user sees.
   */
  lemma EchoEmptyContentQueriesGemini(text: string, user: string, services: BotServices, e: string)
    requires ExtractContent(text, services.fetch) == Success("")
    requires services.generate(services.dedent("")) == Failure(e)
    requires !Contains(ErrorPrefix + e + NoResponseSuffix, QuotaMarker)
    ensures Echo(text, user, services) == Query(ErrorPrefix + e + NoResponseSuffix, None)
    ensures Echo(text, user, services).reply != NoContentMessage
  {
    var reply := ErrorPrefix + e + NoResponseSuffix;
    assert reply[|reply| - 1] == 'e';
    assert NoContentMessage[|NoContentMessage| - 1] == '.';
  }

  /** With the early answer, an empty extraction shows the no-content message whatever Gemini would do. */
  lemma EchoIntendedEmptyContent(text: string, user: string, services: BotServices,
                                 dedent': string -> string, generate': string -> Result<Response, string>)
    requires ExtractContent(text, services.fetch) == Success("")
    ensures EchoIntended(text, user, services) == Query(NoContentMessage, None)
    ensures EchoIntended(text, user, BotServices(dedent', generate', services.fetch)) == EchoIntended(text, user, services)
  {
  }

  /** Apart from an empty extraction the intended `echo` is the one written. */
  lemma EchoIntendedAgrees(text: string, user: string, services: BotServices)
    requires ExtractContent(text, services.fetch) != Success("")
    ensures EchoIntended(text, user, services) == Echo(text, user, services)
  {
  }
}
