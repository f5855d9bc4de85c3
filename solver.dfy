/**
 * The model-call fallback policy `callOpenAI` (callback.php:99-116) and the
 * mapping of a call's outcome to the text the user is sent
 * (`getTextResponse`, `getImageResponse`, callback.php:147-194).
 */
module Solver {
  import opened Wrappers
  import opened Php
  import opened Sanitizer

  const ModelVision := "gpt-4o"
  const ModelText := "gpt-4o"
  const ModelFallback := "gpt-4o-mini"

  /** What the user sees when a solve fails. */
  const CouldNotReachSolver := "I couldn\U{2019}t reach the solver right now. Try again in a moment."
  const NoSolverResponse := "I didn\U{2019}t get a response from the solver."
  const CouldNotReadImage := "I couldn't read the image. Please send it again."
  const CouldNotReachVision := "I couldn\U{2019}t reach the vision solver right now. Try again in a moment."
  const NoVisionResponse := "I didn\U{2019}t get a response from the vision solver."

  /** The user part of a chat request: the problem as text, or the problem as
      an instruction to read the attached JPEG image. */
  datatype Problem = TextProblem(text: string) | ImageProblem(jpeg: seq<byte>)

  /** A chat request without its model: the fixed tutoring system prompt (not
      modelled), the user part and the output budget. */
  datatype Payload = Payload(problem: Problem, maxTokens: nat)

  /** One call of the chat-completion client. */
  datatype Attempt = Attempt(model: string, payload: Payload)

  /** A completion the client returned; its first choice's content may be missing. */
  datatype Completion = Completion(content: Option<string>)

  /** The remote service: the completion for an attempt, or None when the client throws. */
  type Api = Attempt -> Option<Completion>

  /** What `callOpenAI` returns, with the calls it made, in order. */
  datatype Invocation = Invocation(result: Option<Completion>, attempts: seq<Attempt>)

  /** `callOpenAI($model, $payload)`: one call; on an exception one more call with
      the fallback model and the same payload, unless the model already was the
      fallback. */
  function CallOpenAI(model: string, payload: Payload, api: Api): Invocation {
    var first := Attempt(model, payload);
    match api(first)
    case Some(r) => Invocation(Some(r), [first])
    case None =>
      if model != ModelFallback then
        var second := Attempt(ModelFallback, payload);
        Invocation(api(second), [first, second])
      else
        Invocation(None, [first])
  }

  /** The retry policy: the first call is always made; a success is returned
      with no second call; a failure is retried exactly once, on the fallback
      model with the identical payload, unless the model already was the
      fallback; the result is missing exactly when every call made failed. */
  lemma CallOpenAIPolicy(model: string, payload: Payload, api: Api)
    ensures var inv := CallOpenAI(model, payload, api);
      && 1 <= |inv.attempts| <= 2
      && inv.attempts[0] == Attempt(model, payload)
      && (forall a :: a in inv.attempts ==> a.payload == payload)
      && (api(Attempt(model, payload)).Some? ==> |inv.attempts| == 1 && inv.result == api(Attempt(model, payload)))
      && (|inv.attempts| == 2 <==> api(Attempt(model, payload)).None? && model != ModelFallback)
      && (|inv.attempts| == 2 ==> inv.attempts[1] == Attempt(ModelFallback, payload))
      && (inv.result.None? <==> forall a :: a in inv.attempts ==> api(a).None?)
      && (inv.result.Some? ==> inv.result == api(inv.attempts[|inv.attempts| - 1]))
  {
    var first := Attempt(model, payload);
    if api(first).None? && model != ModelFallback {
      var inv := CallOpenAI(model, payload, api);
      assert inv.attempts == [first, Attempt(ModelFallback, payload)];
    }
  }

  /** The text a user is sent for a call's outcome: the `unreachable` text when
      every call failed, the `silent` text when the content is missing or falsy,
      otherwise the sanitised content. */
  function ReplyText(inv: Invocation, unreachable: string, silent: string): string {
    if inv.result.None? then unreachable
    else if !Present(inv.result.value.content) then silent
    else Sanitize(inv.result.value.content.value)
  }

  /** A reply to one event and the model calls made to compute it. */
  datatype Reply = Reply(text: string, attempts: seq<Attempt>)

  function TextPayload(problem: string): Payload {
    Payload(TextProblem(problem), 900)
  }

  function ImagePayload(jpeg: seq<byte>): Payload {
    Payload(ImageProblem(jpeg), 1100)
  }

  /** The outcome a single successful call leads to. */
  function Answer(c: Completion, silent: string): string {
    if Present(c.content) then Sanitize(c.content.value) else silent
  }

  /** `getTextResponse($text)`. */
  function TextReply(problem: string, api: Api): Reply {
    var inv := CallOpenAI(ModelText, TextPayload(problem), api);
    Reply(ReplyText(inv, CouldNotReachSolver, NoSolverResponse), inv.attempts)
  }

  /** `getImageResponse()` over the bytes read back from the downloaded image. */
  function ImageReply(raw: seq<byte>, api: Api): Reply {
    if !TruthyBytes(raw) then Reply(CouldNotReadImage, [])
    else
      var inv := CallOpenAI(ModelVision, ImagePayload(raw), api);
      Reply(ReplyText(inv, CouldNotReachVision, NoVisionResponse), inv.attempts)
  }

  /** What a text problem is answered with: the sanitised content of the first
      call that succeeds, "didn't get a response" when its content is missing or
      falsy, "couldn't reach the solver" when both calls fail. */
  lemma TextReplyCases(problem: string, api: Api)
    ensures var r := TextReply(problem, api);
            var first := Attempt(ModelText, TextPayload(problem));
            var second := Attempt(ModelFallback, TextPayload(problem));
            && (api(first).Some? ==> r == Reply(Answer(api(first).value, NoSolverResponse), [first]))
            && (api(first).None? && api(second).Some? ==>
                  r == Reply(Answer(api(second).value, NoSolverResponse), [first, second]))
            && (api(first).None? && api(second).None? ==> r == Reply(CouldNotReachSolver, [first, second]))
  {
    CallOpenAIPolicy(ModelText, TextPayload(problem), api);
  }

  /** The same mapping for an image, and "couldn't read the image" with no model
      call at all when the bytes are empty or falsy. */
  lemma ImageReplyCases(raw: seq<byte>, api: Api)
    ensures !TruthyBytes(raw) ==> ImageReply(raw, api) == Reply(CouldNotReadImage, [])
    ensures TruthyBytes(raw) ==>
            var r := ImageReply(raw, api);
            var first := Attempt(ModelVision, ImagePayload(raw));
            var second := Attempt(ModelFallback, ImagePayload(raw));
            && (api(first).Some? ==> r == Reply(Answer(api(first).value, NoVisionResponse), [first]))
            && (api(first).None? && api(second).Some? ==>
                  r == Reply(Answer(api(second).value, NoVisionResponse), [first, second]))
            && (api(first).None? && api(second).None? ==> r == Reply(CouldNotReachVision, [first, second]))
  {
    if TruthyBytes(raw) {
      CallOpenAIPolicy(ModelVision, ImagePayload(raw), api);
    }
  }

  /** A reply makes at most two model calls, all on the same payload. */
  lemma ReplyAttempts(problem: string, raw: seq<byte>, api: Api)
    ensures var t := TextReply(problem, api).attempts;
      && 1 <= |t| <= 2 && t[0] == Attempt(ModelText, TextPayload(problem))
      && (|t| == 2 ==> t[1] == Attempt(ModelFallback, TextPayload(problem)))
    ensures var i := ImageReply(raw, api).attempts;
      && |i| <= 2 && (forall a :: a in i ==> a.payload == ImagePayload(raw))
      && (TruthyBytes(raw) ==> |i| >= 1 && i[0] == Attempt(ModelVision, ImagePayload(raw)))
  {
    CallOpenAIPolicy(ModelText, TextPayload(problem), api);
    if TruthyBytes(raw) {
      CallOpenAIPolicy(ModelVision, ImagePayload(raw), api);
    }
  }
}
