/** What both apps read from a Gemini `generate_content` response. */
module Gemini {
  import opened Wrappers

  /**
   * `response.prompt_feedback.block_reason` and `response.text` (`None` when the service sent
   * no text). The response's other fields are never read.
   */
  datatype Response = Response(blockReason: int, text: Option<string>)

  /** The `block_reason` value both apps test for (`== 2`). */
  const BlockReasonOther: int := 2
}
