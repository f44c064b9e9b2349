/**
 * `useChatProxyAPI`: the conversion of chat messages into the OpenAI
 * message format the local proxy forwards, and the decision the client
 * takes on the proxy's answer. The request itself and its timeout are not
 * modelled.
 */
module ChatProxy {
  import opened Wrappers
  import opened JsValues

  /** A message in the OpenAI format. */
  datatype OpenAIMessage = OpenAIMessage(role: string, content: JsValue)

  /** One message through `.filter(m => m?.text).map(...)`: `None` when it is dropped. */
  function ConvertMessage(m: JsValue): (r: Option<OpenAIMessage>)
    ensures r.Some? <==> Truthy(Get(m, "text"))
    ensures r.Some? ==> r.value.content == Get(m, "text")
    ensures r.Some? ==> (r.value.role == "assistant" <==> Get(m, "role") == Str("ai"))
    ensures r.Some? ==> (r.value.role == "assistant" || r.value.role == "user")
  {
    if Truthy(Get(m, "text")) then
      Some(OpenAIMessage(if Get(m, "role") == Str("ai") then "assistant" else "user", Get(m, "text")))
    else None
  }

  /**
   * `convertMessagesToOpenAIFormat(appMessages)`: no messages for a missing
   * (falsy) input, a `TypeError` for anything else that is not an array, and
   * otherwise the messages with a text, in order. Entries that are `null` or
   * not objects are skipped rather than rejected (`m?.text`).
   */
  function ConvertMessagesToOpenAIFormat(appMessages: JsValue): (r: Result<seq<OpenAIMessage>>)
    ensures !Truthy(appMessages) ==> r == Success([])
    ensures r.Failure? <==> Truthy(appMessages) && !appMessages.Arr?
    ensures appMessages.Arr? ==> r == Success(FilterMap(appMessages.items, ConvertMessage))
  {
    if !Truthy(appMessages) then Success([])
    else if appMessages.Arr? then Success(FilterMap(appMessages.items, ConvertMessage))
    else Failure("TypeError")
  }

  /**
   * What the conversion keeps: one message per entry with a text, in the
   * order of the entries, each carrying that text and a role of
   * `assistant` or `user`; `null` entries and entries without text
   * contribute nothing.
   */
  lemma ConvertMeaning(xs: seq<JsValue>, ys: seq<JsValue>)
    ensures FilterMap(xs + ys, ConvertMessage) == FilterMap(xs, ConvertMessage) + FilterMap(ys, ConvertMessage)
    ensures |FilterMap(xs, ConvertMessage)| == CountSome(xs, ConvertMessage)
    ensures forall m :: m in FilterMap(xs, ConvertMessage) <==>
      exists i :: 0 <= i < |xs| && Truthy(Get(xs[i], "text")) && m == ConvertMessage(xs[i]).value
    ensures forall m :: m in FilterMap(xs, ConvertMessage) ==> Truthy(m.content)
  {
    FilterMapAppend(xs, ys, ConvertMessage);
    FilterMapLength(xs, ConvertMessage);
    FilterMapMembers(xs, ConvertMessage);
  }

  /** A `null` entry is skipped: it changes nothing around it. */
  lemma NullEntrySkipped(xs: seq<JsValue>, ys: seq<JsValue>)
    ensures FilterMap(xs + [Null] + ys, ConvertMessage) == FilterMap(xs + ys, ConvertMessage)
  {
    FilterMapAppend(xs + [Null], ys, ConvertMessage);
    FilterMapAppend(xs, [Null], ConvertMessage);
    FilterMapAppend(xs, ys, ConvertMessage);
    assert FilterMap([Null], ConvertMessage) == [];
  }

  // ---------------------------------------------------------------------------
  // The proxy's answer
  // ---------------------------------------------------------------------------

  const MalformedMessage := "API 返回格式异常"

  /** `请求失败: ${status} ${statusText}`, built by the caller's `String` conversions. */
  function DefaultFailure(statusLine: string): string {
    "请求失败: " + statusLine
  }

  /**
   * The outcome of `callChatProxyAPI` once the proxy answered. `data` is the
   * parsed body, `Null` when the body was not JSON. An answer that is not OK
   * fails with the body's `error`, else its `message`, else the status
   * line; an OK answer is accepted only with a truthy `success` and a
   * truthy `text`, and is then returned as it is. `jsString` stands for
   * `String(v)` on a message that is not a string.
   */
  function ProxyOutcome(ok: bool, statusLine: string, data: JsValue, jsString: JsValue -> string): (r: Result<JsValue>)
    ensures r.Success? <==> ok && Truthy(Get(data, "success")) && Truthy(Get(data, "text"))
    ensures r.Success? ==> r.value == data
    ensures ok && r.Failure? ==> r.error == MalformedMessage
  {
    if !ok then
      var msg := Or(Or(Get(data, "error"), Get(data, "message")), Str(DefaultFailure(statusLine)));
      Failure(if msg.Str? then msg.s else jsString(msg))
    else if !Truthy(Get(data, "success")) || !Truthy(Get(data, "text")) then Failure(MalformedMessage)
    else Success(data)
  }

  /**
   * A failed answer reports the proxy's own `error` first, its `message`
   * next, and the status line only when the body carries neither, which
   * includes a body that was not JSON.
   */
  lemma FailureReason(statusLine: string, data: JsValue, jsString: JsValue -> string)
    ensures NonEmptyStr(Get(data, "error")) ==> ProxyOutcome(false, statusLine, data, jsString) == Failure(Get(data, "error").s)
    ensures !Truthy(Get(data, "error")) && NonEmptyStr(Get(data, "message"))
        ==> ProxyOutcome(false, statusLine, data, jsString) == Failure(Get(data, "message").s)
    ensures !Truthy(Get(data, "error")) && !Truthy(Get(data, "message"))
        ==> ProxyOutcome(false, statusLine, data, jsString) == Failure(DefaultFailure(statusLine))
    ensures ProxyOutcome(false, statusLine, Null, jsString) == Failure(DefaultFailure(statusLine))
  {
  }
}
