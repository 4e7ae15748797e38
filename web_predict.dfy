/**
 * The web prototype's `/predict` handler: the early returns, the LSTM label, the Gemini verdict
 * and the page that is rendered. Flask's request, `flash` and templates are reduced to the
 * form dictionary and a `Page` value.
 */
module WebPredict {
  import opened Wrappers
  import opened PyText
  import opened Gemini
  import opened UrlParser
  import opened WebLstm
  import opened WebGemini

  /**
   * What `predict` renders: `index.html` after flashing a message, `result.html` with the
   * extracted text and both results, or Flask's 400 answer when the form lacks `news_text`.
   */
  datatype Page =
    | IndexPage(flash: string)
    | ResultPage(text: string, resultLstm: string, resultGemini: string)
    | BadRequest

  const EnterTextMessage: string := "Please enter text to analyze."
  const NoContentMessage: string := "No content extracted from the URL. Please provide a valid news article URL."
  const ErrorPrefix: string := "An error occurred during prediction: "

  /** The collaborators `predict` reaches: the article fetch, Gemini and `markdown.markdown`. */
  datatype Services = Services(
    fetch: string -> Result<string, string>,
    generate: string -> Result<Response, string>,
    markdown: string -> string)

  /** `predict`, with every exception inside its `try` turned into the flashed error message. */
  function Predict(form: map<string, string>, lstm: Lstm, services: Services): Page {
    if "news_text" !in form then BadRequest
    else
      var text := form["news_text"];
      if text == "" then IndexPage(EnterTextMessage)
      else match ExtractContent(text, services.fetch)
        case Failure(e) => IndexPage(ErrorPrefix + e)
        case Success(content) =>
          if content == "" then IndexPage(NoContentMessage)
          else match LstmLabel(lstm, content)
            case Failure(e) => IndexPage(ErrorPrefix + e)
            case Success(resultLstm) =>
              match QueryGemini(content, true, services.generate, services.markdown)
              case Failure(e) => IndexPage(ErrorPrefix + e)
              case Success(resultGemini) => ResultPage(content, resultLstm, resultGemini)
  }

  /**
   * An empty submission is turned back with the enter-text message before anything runs: the
   * page is the same whatever the model, the fetch and the service would have done.
   */
  lemma EmptyTextIsRejected(form: map<string, string>, lstm: Lstm, services: Services, lstm': Lstm, services': Services)
    requires "news_text" in form && form["news_text"] == ""
    ensures Predict(form, lstm, services) == IndexPage(EnterTextMessage)
    ensures Predict(form, lstm, services) == Predict(form, lstm', services')
  {
  }

  /**
   * Extraction yielding `""` is a failure: the no-content message is shown and neither the
   * classifier nor Gemini is consulted.
   */
  lemma EmptyContentIsRejected(form: map<string, string>, lstm: Lstm, services: Services, lstm': Lstm,
                               generate': string -> Result<Response, string>, markdown': string -> string)
    requires "news_text" in form && form["news_text"] != ""
    requires ExtractContent(form["news_text"], services.fetch) == Success("")
    ensures Predict(form, lstm, services) == IndexPage(NoContentMessage)
    ensures Predict(form, lstm, services) == Predict(form, lstm', Services(services.fetch, generate', markdown'))
  {
  }

  /**
   * The result page appears exactly when every stage succeeds, and then it shows the non-empty
   * extracted content, its label and Gemini's verdict on that same content.
   */
  lemma ResultPageExactlyWhenAllSucceed(form: map<string, string>, lstm: Lstm, services: Services,
                                        content: string, lstmLabel: string, verdict: string)
    requires "news_text" in form
    ensures Predict(form, lstm, services) == ResultPage(content, lstmLabel, verdict)
        <==> && form["news_text"] != ""
             && ExtractContent(form["news_text"], services.fetch) == Success(content)
             && content != ""
             && LstmLabel(lstm, content) == Success(lstmLabel)
             && QueryGemini(content, true, services.generate, services.markdown) == Success(verdict)
  {
  }

  /** No exception escapes: a failing stage always ends on the index page with its message. */
  lemma FailuresAreFlashed(form: map<string, string>, lstm: Lstm, services: Services)
    requires "news_text" in form
    ensures var page := Predict(form, lstm, services);
      page.IndexPage? ==>
        page.flash == EnterTextMessage || page.flash == NoContentMessage || StartsWith(page.flash, ErrorPrefix)
  {
    var page := Predict(form, lstm, services);
    if page.IndexPage? && page.flash != EnterTextMessage && page.flash != NoContentMessage {
      StartsWithConcat(ErrorPrefix, page.flash[|ErrorPrefix|..]);
      assert page.flash == ErrorPrefix + page.flash[|ErrorPrefix|..];
    }
  }
}
