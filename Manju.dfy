/**
 * What one press of the "analyse and answer" button does (manju.py lines
 * 42-100): which branch runs for the given image and question, which request
 * goes to the model service, and what the page ends up showing. The service,
 * the image library and the page are not modelled; their results are the
 * `Env` given to `Press`, and what the page shows is the returned `Outcome`.
 */
module Manju {
  import opened PyStr
  import opened Reply

  /** The question that ends the conversation ("quit"). */
  const Sentinel := "やめる"

  /** The model and temperature of the image-and-question request (lines
      53-58). */
  const MultimodalModel := "gemini-2.5-flash"
  const MultimodalTemperature := 0.1

  /** The branch the button handler takes. */
  datatype Route = Multimodal | Stop | Chat

  /** The request a press sends to the model service. */
  datatype Request =
    | GenerateContent(model: string, prompt: string, temperature: real)  // lines 53-59, with the image
    | SendMessageStream(prompt: string)                                 // line 83, on the chat session

  /** What the page shows after the press. */
  datatype Outcome =
    | Idle                           // the button was not pressed
    | Answer(markdown: string)       // st.markdown, lines 72 and 92
    | ImageError(cause: Failure)     // st.error, line 76
    | Farewell                       // print to the console only, line 96
    | UnexpectedError(cause: Failure) // st.write, line 100

  datatype Run = Run(requests: seq<Request>, outcome: Outcome)

  /** The results the outside world gives one press: whether `Image.open`
      fails (and with what), what `generate_content` returns or raises, and
      what the chat stream yields or raises while it is read. */
  datatype Env = Env(
    imageError: Option<string>,
    generated: Result<Response>,
    streamed: Result<seq<Part>>)

  /** The question as the handler sees it: `hasImage` is the truth of
      `input_image`, `text` the question already lowercased (line 24). */
  datatype Input = Input(hasImage: bool, text: string)

  /** The branch of lines 47, 79 and 81. Because the sentinel is not empty, a
      question equal to it goes to the image branch when an image is present;
      an empty question always goes to the chat branch. */
  function RouteOf(input: Input): (r: Route)
    ensures r == Multimodal <==> input.hasImage && input.text != ""
    ensures r == Stop <==> !input.hasImage && input.text == Sentinel
    ensures r == Chat <==> (!input.hasImage || input.text == "") && input.text != Sentinel
    ensures input.text == "" ==> r == Chat
  {
    if input.hasImage && input.text != "" then Multimodal
    else if input.text != Sentinel then Chat
    else Stop
  }

  /** The image branch, lines 48-76: every failure inside it is caught and
      shown with st.error. */
  function PressMultimodal(text: string, env: Env): (r: Run)
    ensures !r.outcome.UnexpectedError?
    ensures r.outcome.Answer? || r.outcome.ImageError?
    ensures r.requests == [] <==> env.imageError.Some?
    ensures r.outcome.Answer? <==>
              env.imageError.None? && env.generated.Ok? &&
              ResponseText(env.generated.value).Ok? && ResponseText(env.generated.value).value.Some?
  {
    if env.imageError.Some? then Run([], ImageError(LibraryError(env.imageError.value)))
    else
      var request := [GenerateContent(MultimodalModel, text, MultimodalTemperature)];
      match env.generated
      case Err(e) => Run(request, ImageError(e))
      case Ok(resp) =>
        match ResponseText(resp)
        case Err(e) => Run(request, ImageError(e))
        case Ok(None) => Run(request, ImageError(NoneHasNoReplace))
        case Ok(Some(t)) => Run(request, Answer(Cleanup(t)))
  }

  /** The chat branch, lines 83-92: a failure here is not caught until the
      outer handler of line 98. */
  function PressChat(text: string, env: Env): (r: Run)
    ensures r.requests == [SendMessageStream(text)]
    ensures r.outcome.Answer? || r.outcome.UnexpectedError?
  {
    var request := [SendMessageStream(text)];
    match env.streamed
    case Err(e) => Run(request, UnexpectedError(e))
    case Ok(parts) =>
      match JoinTexts(parts)
      case Err(e) => Run(request, UnexpectedError(e))
      case Ok(t) => Run(request, Answer(Cleanup(t)))
  }

  /** One press of the button, lines 43-100. At most one request is sent, and
      it carries the question; every answer shown is cleaned text. */
  function Press(input: Input, env: Env): (r: Run)
    ensures |r.requests| <= 1
    ensures forall k :: 0 <= k < |r.requests| ==> r.requests[k].prompt == input.text
    ensures r.outcome.Answer? ==> IsStripped(r.outcome.markdown)
    ensures RouteOf(input) == Stop <==> r.outcome == Farewell
    ensures RouteOf(input) == Stop ==> r.requests == []
    ensures !r.outcome.Idle?
  {
    match RouteOf(input)
    case Multimodal => PressMultimodal(input.text, env)
    case Stop => Run([], Farewell)
    case Chat => PressChat(input.text, env)
  }

  /** The whole script for one rerun: `lower` stands for Python's
      `str.lower`, applied to the raw question before anything else (line
      24); nothing happens unless the button is pressed (line 42). */
  function Script(pressed: bool, hasImage: bool, rawText: string,
                  lower: string -> string, env: Env): (r: Run)
    ensures r.outcome.Idle? <==> !pressed
    ensures !pressed ==> r.requests == []
    ensures |r.requests| <= 1
    ensures forall k :: 0 <= k < |r.requests| ==> r.requests[k].prompt == lower(rawText)
    ensures r.outcome == Farewell <==> pressed && !hasImage && lower(rawText) == Sentinel
    ensures pressed ==> r == Press(Input(hasImage, lower(rawText)), env)
  {
    if pressed then Press(Input(hasImage, lower(rawText)), env) else Run([], Idle)
  }

  /** The stop question sends nothing and shows nothing. */
  lemma StopIsSilent(input: Input, env: Env)
    requires RouteOf(input) == Stop
    ensures Press(input, env) == Run([], Farewell)
  {
  }

  /** With an image and a question, a failure of the image library or of the
      model service ends as an error shown by the image branch: no answer,
      and it never reaches the outer handler. */
  lemma MultimodalFailureContained(input: Input, env: Env)
    requires RouteOf(input) == Multimodal
    requires env.imageError.Some? || env.generated.Err?
    ensures Press(input, env).outcome.ImageError?
  {
  }

  /** The image branch also catches the script's own errors: a response
      whose fragments include a `None` text makes the join raise
      `TypeError`, and a response whose `text` is `None` makes `.replace`
      raise `AttributeError`; both are shown as the image branch's error. */
  lemma MultimodalScriptErrorsContained(input: Input, env: Env)
    requires RouteOf(input) == Multimodal && env.imageError.None? && env.generated.Ok?
    ensures ResponseText(env.generated.value).Err? ==>
              Press(input, env).outcome == ImageError(JoinTypeError)
    ensures ResponseText(env.generated.value) == Ok(None) ==>
              Press(input, env).outcome == ImageError(NoneHasNoReplace)
    ensures Press(input, env).outcome.Answer? <==>
              ResponseText(env.generated.value).Ok? && ResponseText(env.generated.value).value.Some?
    ensures !Press(input, env).outcome.Answer? ==> Press(input, env).outcome.ImageError?
  {
  }

  /** With an image and a question, the one request is `generate_content`
      with the fixed model and temperature, and a response whose text is the
      string `t` is shown as the cleanup of `t`. */
  lemma MultimodalAnswerIsCleanedText(input: Input, env: Env, t: string)
    requires RouteOf(input) == Multimodal && env.imageError.None? && env.generated.Ok?
    requires ResponseText(env.generated.value) == Ok(Some(t))
    ensures Press(input, env) ==
              Run([GenerateContent(MultimodalModel, input.text, MultimodalTemperature)], Answer(Cleanup(t)))
  {
  }

  /** A failing chat stream is shown by the outer handler, after the request
      has been sent. */
  lemma ChatFailurePropagates(input: Input, env: Env)
    requires RouteOf(input) == Chat && env.streamed.Err?
    ensures Press(input, env) == Run([SendMessageStream(input.text)], UnexpectedError(env.streamed.error))
  {
  }

  /** The two branches that answer clean their text alike: the same assembled
      text gives the same shown answer whichever branch assembled it, and that
      answer is never longer than the text. */
  lemma BranchesCleanAlike(withImage: Input, chatOnly: Input, e1: Env, e2: Env, t: string)
    requires RouteOf(withImage) == Multimodal && RouteOf(chatOnly) == Chat
    requires e1.imageError.None? && e1.generated.Ok? && ResponseText(e1.generated.value) == Ok(Some(t))
    requires e2.streamed.Ok? && JoinTexts(e2.streamed.value) == Ok(t)
    ensures Press(withImage, e1).outcome == Press(chatOnly, e2).outcome == Answer(Cleanup(t))
    ensures |Press(withImage, e1).outcome.markdown| <= |t|
  {
  }

  /** A streamed chat reply is shown as the cleanup of the in-order
      concatenation of its fragments' texts. */
  lemma ChatAnswerIsJoinedStream(input: Input, env: Env)
    requires RouteOf(input) == Chat && env.streamed.Ok? && !HasNoneText(env.streamed.value)
    ensures Press(input, env).outcome == Answer(Cleanup(Concat(Contributions(env.streamed.value))))
  {
    JoinTextsIsConcat(env.streamed.value);
  }

  /** A chat stream with a fragment whose `text` is `None` makes the join
      raise, which the outer handler shows. */
  lemma ChatNoneFragmentFails(input: Input, env: Env)
    requires RouteOf(input) == Chat && env.streamed.Ok? && HasNoneText(env.streamed.value)
    ensures Press(input, env).outcome == UnexpectedError(JoinTypeError)
  {
    JoinTextsIsConcat(env.streamed.value);
  }
}
