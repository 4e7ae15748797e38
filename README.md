# Fake-news detection: a Dafny model of the pipeline logic

This project models the string handling and decision logic of two Python applications that check
whether a news article is fake.

- **The web prototype** is a Flask app. It takes a text or a URL, extracts the article and labels it.
  The label comes from an LSTM score, after the text has been cleaned by `clean_text`. It also asks
  Gemini for a verdict, using a fixed prompt template.
- **The Telegram bot** extracts the article the same way and asks Gemini for a verdict. It logs
  successful answers to a spreadsheet. Before replying it rewrites Gemini's Markdown for Telegram, in
  `replace_asterisks` and `escape_markdown`.

Everything is pure: datatypes, functions and lemmas. The collaborators the code calls are parameters
of function type. An exception such a collaborator raises is a `Failure(message)`. The collaborators
are:

- newspaper3k's article fetch;
- Gemini's `generate_content`;
- `markdown.markdown` and `textwrap.dedent`;
- the TensorFlow score.

Python's regular expressions are written out as the scans `re.search` and `re.sub` perform:

- leftmost match;
- lazy and greedy quantifiers, including backtracking;
- `.` never matching a newline;
- `\s` being exactly the characters for which `str.isspace()` holds.

Modules:

| file | module | models |
|---|---|---|
| `wrappers.dfy` | `Wrappers` | `Option` and `Result` |
| `pytext.dfy` | `PyText` | `\s`, `in` and `startswith` on strings |
| `gemini.dfy` | `Gemini` | the part of a Gemini response that the code reads |
| `url_parser.dfy` | `UrlParser` | `extract_first_url`, `is_url_or_contains_url` and `extract_content`. The bot's copies, at lines 99-120 of its `app.py`, are identical, so the rows below cite the web prototype's copy |
| `web_lstm.dfy` | `WebLstm` | `clean_text` and the LSTM label rule |
| `web_gemini.dfy` | `WebGemini` | `create_prompt` and the web `query_gemini_api` |
| `web_predict.dfy` | `WebPredict` | the `/predict` handler |
| `bot_app.dfy` | `BotApp` | the bot's `query_gemini_api` and the prediction of `echo` |
| `bot_markdown.dfy` | `BotMarkdown` | `replace_asterisks` and `escape_markdown` |

Three behaviours of the code worth knowing:

- **The web app does not catch Gemini exceptions itself.** `query_gemini_api` in `2-lstm_gemini_fake_news_detection_web_prototype/app.py` has no
  `try` (lines 132-147). An exception from `generate_content` reaches the `except` of `predict`
  (lines 220-222). That handler flashes the error and discards the LSTM label computed before it.
- **The bot queries Gemini even when extraction returns an empty article.** See Findings.
- **The bot has no separate quota case.** `query_gemini_api` in `3-fake_news_detection_chatbot_final_product_and_deployment/app.py` turns any exception into
  `Error: ...` (lines 95-97). `echo` then swaps any reply containing `429 Resource has been exhausted`
  for the try-later message (lines 148-150). That includes a real answer of Gemini which mentions
  the text. Such an answer has already been written to the spreadsheet (line 93), and that row stays.

## Model

| member | source | states |
|---|---|---|
| UrlParser.NonSpaceRunEnd | 2-lstm_gemini_fake_news_detection_web_prototype/app.py:156 | the greedy `[^\s]+` run ends at the first whitespace character or at the end, and contains no whitespace |
| UrlParser.MatchAt | 2-lstm_gemini_fake_news_detection_web_prototype/app.py:155-158 | a match is found at a position exactly when `http://` or `https://` starts there and is followed by a non-whitespace character |
| UrlParser.SearchFrom | 2-lstm_gemini_fake_news_detection_web_prototype/app.py:158 | the search reports the leftmost position where a match starts, and no match when there is none |
| UrlParser.ExtractFirstUrl | 2-lstm_gemini_fake_news_detection_web_prototype/app.py:154-161 | None exactly when no `http(s)://` is followed by a non-whitespace character; otherwise the result is a substring that starts with the scheme, has no whitespace, is followed by whitespace or the end, and has no earlier match |
| UrlParser.ExtractFirstUrlComplete | 2-lstm_gemini_fake_news_detection_web_prototype/app.py:154-161 | conversely, any substring with those properties is what `extract_first_url` returns, so the properties determine the result |
| UrlParser.FirstMatchShape | 2-lstm_gemini_fake_news_detection_web_prototype/app.py:159-160 | `match.group(0)` of the first match has every one of those properties |
| UrlParser.IsUrlOrContainsUrl | 2-lstm_gemini_fake_news_detection_web_prototype/app.py:164-169 | `(True, u)` exactly when a URL `u` is found, `(False, None)` otherwise |
| UrlParser.ExtractContent | 2-lstm_gemini_fake_news_detection_web_prototype/app.py:172-182 | text with no URL is returned unchanged and nothing is fetched; otherwise the result is the fetch of the first URL, an error included |
| UrlParser.PlainTextPassesThrough | 2-lstm_gemini_fake_news_detection_web_prototype/app.py:180-182 | text containing neither `http://` nor `https://` is passed through |
| UrlParser.NoLetterPNoUrl | 2-lstm_gemini_fake_news_detection_web_prototype/app.py:156 | every match contains a `p`, so text without the letter `p` has no URL |
| UrlParser.PlainSentenceIsContent | 2-lstm_gemini_fake_news_detection_web_prototype/app.py:172-182 | "The sky is blue." is handed on as it is |
| UrlParser.UrlInSentenceIsFetched | 2-lstm_gemini_fake_news_detection_web_prototype/app.py:154-182 | in "Check this out: https://example.com/article not-a-real-url-after" the URL up to the space is taken and fetched |
| WebLstm.SkipSpaces | 2-lstm_gemini_fake_news_detection_web_prototype/app.py:47 | the characters dropped are whitespace, and what is left starts with a character other than whitespace or is empty |
| WebLstm.SkipSpacesIsSuffix | 2-lstm_gemini_fake_news_detection_web_prototype/app.py:47 | what is left is exactly the suffix of the text after its leading whitespace |
| WebLstm.CollapseWhitespace | 2-lstm_gemini_fake_news_detection_web_prototype/app.py:47 | the only whitespace left is `' '`, no two spaces are adjacent, the result starts with a space exactly when the text starts with whitespace, it is empty only for empty text, and it is never longer |
| WebLstm.CollapseNoSpacePrefix | 2-lstm_gemini_fake_news_detection_web_prototype/app.py:47 | text without whitespace is copied as it stands, and the pass continues on what follows it |
| WebLstm.CollapseRun | 2-lstm_gemini_fake_news_detection_web_prototype/app.py:47 | a maximal `\s+` run of any length and of any whitespace characters becomes exactly one space, and the pass continues after the run |
| WebLstm.CollapseKeepsNonWhitespace | 2-lstm_gemini_fake_news_detection_web_prototype/app.py:47 | every character other than whitespace is kept, in order: the first pass only replaces whitespace |
| WebLstm.StripSpecial | 2-lstm_gemini_fake_news_detection_web_prototype/app.py:48 | only ASCII letters, digits and spaces are left, and the text does not grow |
| WebLstm.StripSpecialCounts | 2-lstm_gemini_fake_news_detection_web_prototype/app.py:48 | each ASCII letter, digit and space occurs in the result exactly as often as in the text, and every other character occurs zero times |
| WebLstm.StripSpecialAppend | 2-lstm_gemini_fake_news_detection_web_prototype/app.py:48 | the deletion acts on each part of the text separately, so the kept characters stay in their order |
| WebLstm.LowerAscii | 2-lstm_gemini_fake_news_detection_web_prototype/app.py:49 | lower-casing keeps the length and maps each character on its own |
| WebLstm.CleanText | 2-lstm_gemini_fake_news_detection_web_prototype/app.py:46-50 | the output contains only `a`–`z`, `0`–`9` and space, and is never longer than the input |
| WebLstm.CleanTextFixedPoint | 2-lstm_gemini_fake_news_detection_web_prototype/app.py:46-50 | text already in that form, with no two adjacent spaces, is returned unchanged |
| WebLstm.CleanTextKeepsLettersAndDigits | 2-lstm_gemini_fake_news_detection_web_prototype/app.py:47-49 | removing the spaces from the output leaves exactly the ASCII letters and digits of the input, in order, lower-cased |
| WebLstm.CleanTextNotIdempotent | 2-lstm_gemini_fake_news_detection_web_prototype/app.py:47-48 | `clean_text` is not idempotent: "a ! b" gives "a  b", and cleaning that again gives "a b" |
| WebLstm.LstmLabel | 2-lstm_gemini_fake_news_detection_web_prototype/app.py:210-215 | without both model and tokenizer the result is the not-loaded text; otherwise it is "Real" or "Fake" from the score of the cleaned content, or the scoring error |
| WebLstm.LabelThreshold | 2-lstm_gemini_fake_news_detection_web_prototype/app.py:212-213 | "Real" exactly when the score is strictly above 0.5, "Fake" exactly when it is not |
| WebLstm.LabelBoundary | 2-lstm_gemini_fake_news_detection_web_prototype/app.py:212 | a score of exactly 0.5 is "Fake"; 0.5000001 is "Real" |
| WebLstm.NotLoadedIgnoresNetwork | 2-lstm_gemini_fake_news_detection_web_prototype/app.py:210-215 | with an artifact missing, no prediction is made: the result is the not-loaded text whatever the network and the content |
| WebLstm.LabelDependsOnCleanText | 2-lstm_gemini_fake_news_detection_web_prototype/app.py:52-56 | the label depends on the content only through `clean_text` |
| WebGemini.TemplateRoundTrip | 2-lstm_gemini_fake_news_detection_web_prototype/app.py:109-128 | a text placed after the flag in such a template can be read back with the flag |
| WebGemini.TemplateInjective | 2-lstm_gemini_fake_news_detection_web_prototype/app.py:109-128 | such a template gives different strings for different texts or flags |
| WebGemini.PromptRoundTrip | 2-lstm_gemini_fake_news_detection_web_prototype/app.py:106-129 | `create_prompt` embeds the article verbatim and `str(explanation)` recoverably: parsing the prompt gives both back |
| WebGemini.PromptInjective | 2-lstm_gemini_fake_news_detection_web_prototype/app.py:106-129 | different articles or flags give different prompts |
| WebGemini.QueryGemini | 2-lstm_gemini_fake_news_detection_web_prototype/app.py:132-147 | a generation exception propagates; `block_reason == 2` gives the blocked message, checked before the text; no text gives the no-response message; otherwise the Markdown rendering of the text |
| WebPredict.EmptyTextIsRejected | 2-lstm_gemini_fake_news_detection_web_prototype/app.py:194-198 | an empty submission flashes "Please enter text to analyze." and depends on neither classifier nor services |
| WebPredict.EmptyContentIsRejected | 2-lstm_gemini_fake_news_detection_web_prototype/app.py:203-207 | empty extracted content flashes the no-content message without classifying or querying Gemini |
| WebPredict.ResultPageExactlyWhenAllSucceed | 2-lstm_gemini_fake_news_detection_web_prototype/app.py:200-224 | the result page with `(content, label, verdict)` appears exactly when the text is non-empty, extraction gives non-empty `content`, the label is computed and Gemini answers with `verdict` |
| WebPredict.FailuresAreFlashed | 2-lstm_gemini_fake_news_detection_web_prototype/app.py:220-222 | every index page shows one of the two fixed messages or starts with "An error occurred during prediction: " |
| BotApp.QueryGemini | 3-fake_news_detection_chatbot_final_product_and_deployment/app.py:82-97 | a log row is written exactly when Gemini answered with text and no block, and it holds the query text, that answer and the user |
| BotApp.QueryGeminiOutcomes | 3-fake_news_detection_chatbot_final_product_and_deployment/app.py:85-97 | an exception gives "Error: e\nResponse: None"; a block gives the uncategorized-block message and the missing text the no-response message, both without a log row; otherwise the answer itself |
| BotApp.QueryGeminiErrorPrefix | 3-fake_news_detection_chatbot_final_product_and_deployment/app.py:95-97 | any exception yields a reply beginning "Error: " |
| BotApp.EchoQuotaRule | 3-fake_news_detection_chatbot_final_product_and_deployment/app.py:143-150 | for a successful extraction, the prediction is the reply of `query_gemini_api`, swapped for the try-later message whenever `429 Resource has been exhausted` occurs anywhere in it, with its log row kept |
| BotApp.EchoQuotaExhausted | 3-fake_news_detection_chatbot_final_product_and_deployment/app.py:95-150 | a Gemini exception whose text contains `429 Resource has been exhausted` is answered with the try-later message, with no log row |
| BotApp.EchoQuotaAnswerLoggedYetSwapped | 3-fake_news_detection_chatbot_final_product_and_deployment/app.py:89-150 | an unblocked Gemini answer that contains the marker is logged as it is, yet the user gets the try-later message |
| BotApp.EchoExtractionFailure | 3-fake_news_detection_chatbot_final_product_and_deployment/app.py:143-152 | an exception during extraction gives the fixed check-your-content message and no log row, whatever Gemini would do |
| BotApp.EchoLogsOnlyAnswers | 3-fake_news_detection_chatbot_final_product_and_deployment/app.py:140-150 | a logged row is the row of Gemini's answer for the extracted content |
| BotApp.EchoEmptyContentQueriesGemini | 3-fake_news_detection_chatbot_final_product_and_deployment/app.py:145-147 | with an empty extraction, the empty content is sent to Gemini and the no-content message is lost |
| BotApp.EchoIntendedEmptyContent | 3-fake_news_detection_chatbot_final_product_and_deployment/app.py:145-146 | corrected `echo`: an empty extraction gives the no-content message, no log row, and Gemini is not consulted |
| BotApp.EchoIntendedAgrees | 3-fake_news_detection_chatbot_final_product_and_deployment/app.py:143-152 | the corrected `echo` behaves as written on every input whose extraction is not empty |
| BotMarkdown.CharRun | 3-fake_news_detection_chatbot_final_product_and_deployment/app.py:123-130 | the greedy run of one character that a string starts with, as `\*` runs at line 123 and `#+` at line 130 take it: every character before its end is that character, and the one at its end is not |
| BotMarkdown.LoneStarPassIsBulletRuns | 3-fake_news_detection_chatbot_final_product_and_deployment/app.py:123 | the first substitution replaces each run of exactly one `*` by the bullet and keeps runs of two or more `*` and all other text |
| BotMarkdown.LoneStarPassLeavesNoLoneStar | 3-fake_news_detection_chatbot_final_product_and_deployment/app.py:123 | after the first substitution no `*` without a neighbouring `*` is left |
| BotMarkdown.NoLoneStarUnchanged | 3-fake_news_detection_chatbot_final_product_and_deployment/app.py:123 | asterisks in runs of two or more survive: text with no lone `*` is unchanged |
| BotMarkdown.LoneStarPassIdempotent | 3-fake_news_detection_chatbot_final_product_and_deployment/app.py:123 | the first substitution is idempotent |
| BotMarkdown.CloseAt | 3-fake_news_detection_chatbot_final_product_and_deployment/app.py:124 | the lazy `(.*?)\*\*` stops at the first `**` with no newline before it, and fails exactly when every later `**` is behind a newline |
| BotMarkdown.BoldPassPlainPrefix | 3-fake_news_detection_chatbot_final_product_and_deployment/app.py:124 | text where no `**` starts is copied through the second substitution untouched |
| BotMarkdown.BoldPassStrong | 3-fake_news_detection_chatbot_final_product_and_deployment/app.py:124 | `**x**` becomes `*x*` when `x` is one line with no `**` inside it and no trailing `*`, and the scan resumes after it |
| BotMarkdown.BoldPassUnclosed | 3-fake_news_detection_chatbot_final_product_and_deployment/app.py:124 | an opening `**` with no closing `**` on its line does not match: its first `*` is copied and the scan goes on from the second |
| BotMarkdown.NoDoubleStarBoldUnchanged | 3-fake_news_detection_chatbot_final_product_and_deployment/app.py:124 | text with no two adjacent asterisks passes through the second substitution unchanged |
| BotMarkdown.ReplaceAsterisksStarFree | 3-fake_news_detection_chatbot_final_product_and_deployment/app.py:122-125 | `replace_asterisks` returns text containing no `*` unchanged |
| BotMarkdown.ReplaceAsterisksListItem | 3-fake_news_detection_chatbot_final_product_and_deployment/app.py:122-125 | a list item `* text` gets the bullet in front of it |
| BotMarkdown.GeminiBoldBecomesTelegramBold | 3-fake_news_detection_chatbot_final_product_and_deployment/app.py:122-125 | a document of plain and `**bold**` spans, with no `*` in any span and bold spans on one line, becomes the same document with `*bold*` |
| BotMarkdown.EscapeFirstAlternative | 3-fake_news_detection_chatbot_final_product_and_deployment/app.py:128-130 | the first alternative matches one of `_*[`, then `` ~`> ``, one or more `#`, then `-=` |
| BotMarkdown.EscapeSecondAlternative | 3-fake_news_detection_chatbot_final_product_and_deployment/app.py:128-130 | the second alternative matches exactly `{}`, one character other than a newline, then `!]` |
| BotMarkdown.EscapeMatchAt | 3-fake_news_detection_chatbot_final_product_and_deployment/app.py:130 | every match of the escape pattern is at least five characters long and starts with `_`, `*`, `[` or `{` |
| BotMarkdown.EscapeStepUnchanged | 3-fake_news_detection_chatbot_final_product_and_deployment/app.py:130 | text with no `_`, `*`, `[` or `{` is unchanged by the escape substitution |
| BotMarkdown.EscapeStepShortUnchanged | 3-fake_news_detection_chatbot_final_product_and_deployment/app.py:130 | text shorter than five characters is unchanged by the escape substitution |
| BotMarkdown.EscapeStepFirstAlternative | 3-fake_news_detection_chatbot_final_product_and_deployment/app.py:130 | a whole match such as `` _~`>##-= `` gets one backslash in front of it |
| BotMarkdown.UnescapeEscapeStep | 3-fake_news_detection_chatbot_final_product_and_deployment/app.py:130 | the substitution as written only inserts backslashes: for text without backslashes, removing them gives the text back |
| BotMarkdown.LoneSpecialCharNotEscaped | 3-fake_news_detection_chatbot_final_product_and_deployment/app.py:128-130 | no listed character on its own is escaped by the pattern as written, where the intended escape always escapes it |
| BotMarkdown.UnescapeEscapeSpecialChars | 3-fake_news_detection_chatbot_final_product_and_deployment/app.py:128 | corrected escape: for text without backslashes, removing the escapes gives the text back |
| BotMarkdown.SpecialCharsAreEscaped | 3-fake_news_detection_chatbot_final_product_and_deployment/app.py:128 | corrected escape: every one of the 18 listed characters in the output has a backslash right before it |
| BotMarkdown.AnchorCloseFrom | 3-fake_news_detection_chatbot_final_product_and_deployment/app.py:131 | the lazy `(.*?)</a>` stops at the first `</a>` with no newline before it, and finds nothing exactly when every later `</a>` has a newline before it |
| BotMarkdown.AnchorAt | 3-fake_news_detection_chatbot_final_product_and_deployment/app.py:131 | a match of the anchor pattern starts with `<a` and ends with `</a>` |
| BotMarkdown.AnchorPassUnchanged | 3-fake_news_detection_chatbot_final_product_and_deployment/app.py:131 | text without `<` is unchanged by the anchor substitution |
| BotMarkdown.AnchorMatchesTag | 3-fake_news_detection_chatbot_final_product_and_deployment/app.py:131 | the pattern matches a one-line `<a href="u">t</a>` as a whole, with `u` as group 1 and `t` as group 2 |
| BotMarkdown.AnchorRewritten | 3-fake_news_detection_chatbot_final_product_and_deployment/app.py:131 | such an anchor becomes `t (u)` |
| BotMarkdown.EscapeMarkdownLoneChar | 3-fake_news_detection_chatbot_final_product_and_deployment/app.py:127-132 | `escape_markdown` applies `replace_asterisks` first; a lone `_`, `.`, `(` or `!`, or any single character other than `*`, comes out unescaped |
| BotMarkdown.EscapeMarkdownPlain | 3-fake_news_detection_chatbot_final_product_and_deployment/app.py:127-132 | text with no `*`, `_`, `[`, `{` or `<` comes out of `escape_markdown` unchanged |
| BotMarkdown.EscapeMarkdownIntendedLoneChar | 3-fake_news_detection_chatbot_final_product_and_deployment/app.py:127-132 | with the corrected escape, a listed character on its own other than `*` gets its backslash |

## Left out

- **TensorFlow.** Model and tokenizer loading, `texts_to_sequences`, `pad_sequences` to length 500 and `predict` are foreign calls. Only the score they produce and the 0.5 threshold are modelled.
- **Gemini.**
  - Configuration, the bot's system instruction and the effect of the prompt text are an external service.
  - A response is modelled as its block reason and optional text.
  - `markdown.markdown` and `textwrap.dedent` are opaque functions.
- BotApp.QueryGemini: an exception raised after `generate_content` returned, such as a failing `.text` accessor, would print the response object. The model covers only the exception of `generate_content` itself, whose message ends in "Response: None".
- **newspaper3k.** `Article.download` and `parse` are network access and HTML parsing, modelled as one opaque fetch.
- **`save_to_excel`.** The pandas file I/O, the timestamp from the clock, and the swallowing of write errors are left out. Only the row that would be appended is modelled.
- **Flask and Telegram.**
  - Routes, templates and `flash` are reduced to a `Page` value.
  - The async wiring of the handlers, `/start` and `run_polling` are framework code.
  - `echo`'s reply step is left out (lines 153-158 of the bot's `app.py`). It sends `replace_asterisks(prediction)` with Markdown, and on any exception sends `escape_markdown(prediction)` instead, again with Markdown. Only the two functions are modelled, as `ReplaceAsterisks` and `EscapeMarkdown`.
- **The health-check HTTP server thread and environment-variable reads.** They have no behaviour to verify.
- **Logging `print` calls.** They have no effect on the results.

## Findings

| source | as written | input that shows it | evidently intended | confidence | as-written member | corrected member |
|---|---|---|---|---|---|---|
| 3-fake_news_detection_chatbot_final_product_and_deployment/app.py:128-130 | the `]` in the character list closes the bracket expression, so the pattern is an alternation of two branches and matches only sequences like `` _~`>#-= `` or `{}x!]` | a reply `_` (or any lone `.`, `(`, `!`) is sent without a backslash | a backslash before each of the 18 listed characters | high; not executed | BotMarkdown.LoneSpecialCharNotEscaped | BotMarkdown.EscapeSpecialChars |
| 3-fake_news_detection_chatbot_final_product_and_deployment/app.py:145-147 | the no-content message set at line 146 is overwritten at line 147, and Gemini is queried with the empty content | a URL whose article extraction returns "" (for instance with Gemini raising `e`, the reply is "Error: e\nResponse: None") | answer with the no-content message and do not query Gemini | high; not executed | BotApp.EchoEmptyContentQueriesGemini | BotApp.EchoIntendedEmptyContent |
