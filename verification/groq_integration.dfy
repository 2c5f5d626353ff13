/** Post-processing of a transcript by a hosted chat-completion model. The
    model and the network call are an oracle: it maps a request to the first
    choice's message content, or fails with a message. Neither operation here
    ever fails outward. */
module GroqIntegration {
  import opened Wrappers
  import Config
  import Text

  datatype ChatRequest = ChatRequest(
    model: string,
    systemMessage: string,
    userMessage: string,
    temperature: real,
    maxTokens: nat)

  /** The hosted model: a request to the first choice's content, or a failure. */
  type ChatModel = ChatRequest -> Result<string>

  const CorrectionSystem: string := "You are a helpful assistant that corrects speech transcriptions."

  /** The fixed text of the correction prompt before and after the transcript. */
  const CorrectionHead: string :=
    "\n        Please correct and improve the following speech transcription. "
    + "\n        Fix any grammatical errors, punctuation, and make it more readable."
    + "\n        Return only the corrected text without any additional commentary."
    + "\n        \n        Transcription: "
  const CorrectionTail: string := "\n        \n        Corrected transcription:\n        "

  const SummarySystem: string := "You are a helpful assistant that summarizes text."
  const SummaryHead: string :=
    "\n        Please provide a concise summary of the following text:\n        \n        "
  const SummaryTail: string := "\n        \n        Summary:\n        "

  const SummaryFallback: string := "Summary not available"

  /** A prompt made of a fixed head, the text verbatim, and a fixed tail. */
  function Embed(head: string, text: string, tail: string): (p: string)
    ensures |p| == |head| + |text| + |tail|
    ensures p[..|head|] == head && p[|p| - |tail|..] == tail
  {
    head + text + tail
  }

  /** Recovers the embedded text from a prompt built with `head` and `tail`. */
  function Extract(head: string, tail: string, p: string): (r: Option<string>)
  {
    if |p| >= |head| + |tail| && p[..|head|] == head && p[|p| - |tail|..] == tail
    then Some(p[|head|..|p| - |tail|])
    else None
  }

  /** The text is embedded verbatim and can be read back from the prompt. */
  lemma ExtractEmbed(head: string, text: string, tail: string)
    ensures Extract(head, tail, Embed(head, text, tail)) == Some(text)
  {
    var p := Embed(head, text, tail);
    assert p[|head|..|p| - |tail|] == text;
  }

  function CorrectionRequest(text: string): (q: ChatRequest)
    ensures Extract(CorrectionHead, CorrectionTail, q.userMessage) == Some(text)
    ensures q.model == Config.GroqModel && q.systemMessage == CorrectionSystem
    ensures q.temperature == 0.1 && q.maxTokens == 1000
  {
    ExtractEmbed(CorrectionHead, text, CorrectionTail);
    ChatRequest(Config.GroqModel, CorrectionSystem, Embed(CorrectionHead, text, CorrectionTail), 0.1, 1000)
  }

  function SummaryRequest(text: string): (q: ChatRequest)
    ensures Extract(SummaryHead, SummaryTail, q.userMessage) == Some(text)
    ensures q.model == Config.GroqModel && q.systemMessage == SummarySystem
    ensures q.temperature == 0.1 && q.maxTokens == 500
  {
    ExtractEmbed(SummaryHead, text, SummaryTail);
    ChatRequest(Config.GroqModel, SummarySystem, Embed(SummaryHead, text, SummaryTail), 0.1, 500)
  }

  /** Asks the model to correct a transcript. A successful answer is returned
      with surrounding whitespace removed; any failure returns the transcript
      exactly as given. */
  function CorrectTranscription(llm: ChatModel, text: string): (r: string)
    ensures llm(CorrectionRequest(text)).Err? ==> r == text
    ensures llm(CorrectionRequest(text)).Ok? ==> Text.StripsTo(llm(CorrectionRequest(text)).value, r)
  {
    match llm(CorrectionRequest(text))
    case Ok(content) => Text.Strip(content)
    case Err(_) => text
  }

  /** Asks the model for a summary; any failure yields a fixed placeholder. */
  function SummarizeText(llm: ChatModel, text: string): (r: string)
    ensures llm(SummaryRequest(text)).Err? ==> r == SummaryFallback
    ensures llm(SummaryRequest(text)).Ok? ==> Text.StripsTo(llm(SummaryRequest(text)).value, r)
  {
    match llm(SummaryRequest(text))
    case Ok(content) => Text.Strip(content)
    case Err(_) => SummaryFallback
  }
}
