/**
 * `useDashScopeAPI`: the conversion of chat messages into DashScope's
 * message format, the request body's own message mapping, the access-key
 * check that comes before any request, and the choice of error message for
 * a response that is not OK. The request itself, the timeout and the
 * parsing of a successful reply are not modelled.
 */
module DashScope {
  import opened Wrappers
  import opened Text
  import opened JsValues

  /** A message in DashScope's format, as `convertMessagesToDashScopeFormat` builds it. */
  datatype ApiMessage = ApiMessage(role: string, content: JsValue)

  /** `msg.role === 'ai' ? 'assistant' : 'user'`. */
  function ApiRole(role: JsValue): (r: string)
    ensures r == "assistant" <==> role == Str("ai")
    ensures r == "assistant" || r == "user"
  {
    if role == Str("ai") then "assistant" else "user"
  }

  /** The filter of the converter: a message with a truthy `text` or a truthy `content`. */
  predicate HasText(msg: JsValue) {
    Truthy(Get(msg, "text")) || Truthy(Get(msg, "content"))
  }

  /** The converter on one message that passed the filter (`null` for one that did not). */
  function ConvertMessage(msg: JsValue): (r: Option<ApiMessage>)
    ensures r.Some? <==> HasText(msg)
    ensures r.Some? ==> Truthy(r.value.content) && r.value.role == ApiRole(Get(msg, "role"))
    ensures r.Some? ==> r.value.content == if Truthy(Get(msg, "text")) then Get(msg, "text") else Get(msg, "content")
  {
    if !HasText(msg) then None
    else Some(ApiMessage(ApiRole(Get(msg, "role")), Or(Or(Get(msg, "text"), Get(msg, "content")), Str(""))))
  }

  /** `msg.text` on `null` or `undefined` throws. */
  predicate Nullable(v: JsValue) {
    v.Null? || v.Undefined?
  }

  /**
   * `convertMessagesToDashScopeFormat(appMessages)`: a `TypeError` unless an
   * array without `null`/`undefined` entries; otherwise the messages with
   * text, in order, converted.
   */
  function ConvertMessagesToDashScopeFormat(appMessages: JsValue): (r: Result<seq<ApiMessage>>)
    ensures r.Success? <==> appMessages.Arr? && forall i :: 0 <= i < |appMessages.items| ==> !Nullable(appMessages.items[i])
    ensures r.Success? ==> r.value == FilterMap(appMessages.items, ConvertMessage)
  {
    if !appMessages.Arr? then Failure("TypeError")
    else if exists i :: 0 <= i < |appMessages.items| && Nullable(appMessages.items[i]) then Failure("TypeError")
    else Success(FilterMap(appMessages.items, ConvertMessage))
  }

  /**
   * The converter drops exactly the messages without text, keeps the order
   * of the rest, and gives every kept message a non-empty content and the
   * role `assistant` or `user`.
   */
  lemma ConvertMeaning(xs: seq<JsValue>, ys: seq<JsValue>)
    ensures FilterMap(xs + ys, ConvertMessage) == FilterMap(xs, ConvertMessage) + FilterMap(ys, ConvertMessage)
    ensures |FilterMap(xs, ConvertMessage)| == CountSome(xs, ConvertMessage)
    ensures forall m :: m in FilterMap(xs, ConvertMessage) ==> Truthy(m.content) && (m.role == "assistant" || m.role == "user")
  {
    FilterMapAppend(xs, ys, ConvertMessage);
    FilterMapLength(xs, ConvertMessage);
    FilterMapMembers(xs, ConvertMessage);
  }

  /** A message of the request body: the role and content as they are sent. */
  datatype BodyMessage = BodyMessage(role: JsValue, content: JsValue)

  /** The body's mapping of one message: `ai` becomes `assistant`, any other role is sent as it is; the content falls back to the text. */
  function BodyMessageOf(msg: JsValue): (r: BodyMessage)
    ensures Get(msg, "role") == Str("ai") ==> r.role == Str("assistant")
    ensures Get(msg, "role") != Str("ai") ==> r.role == Get(msg, "role")
    ensures r.content == if Truthy(Get(msg, "content")) then Get(msg, "content") else Get(msg, "text")
  {
    BodyMessage(if Get(msg, "role") == Str("ai") then Str("assistant") else Get(msg, "role"), Or(Get(msg, "content"), Get(msg, "text")))
  }

  /** `input.messages` of the request body: a `TypeError` for a `null`/`undefined` entry. */
  function BodyMessages(messages: seq<JsValue>): (r: Result<seq<BodyMessage>>)
    ensures r.Success? <==> forall i :: 0 <= i < |messages| ==> !Nullable(messages[i])
    ensures r.Success? ==> r.value == MapSeq(messages, BodyMessageOf)
  {
    if exists i :: 0 <= i < |messages| && Nullable(messages[i]) then Failure("TypeError")
    else Success(MapSeq(messages, BodyMessageOf))
  }

  /** A converted message as an object. */
  function ApiMessageValue(m: ApiMessage): JsValue {
    Obj(map["role" := Str(m.role), "content" := m.content], "Object")
  }

  /** On converted messages the body mapping changes nothing: role and content go out as converted. */
  lemma BodyAfterConvert(m: ApiMessage)
    requires Truthy(m.content) && (m.role == "assistant" || m.role == "user")
    ensures BodyMessageOf(ApiMessageValue(m)) == BodyMessage(Str(m.role), m.content)
  {
  }

  /**
   * On raw messages the two mappings differ: the body keeps a role other
   * than `ai` (a `system` message stays `system`), where the converter
   * makes it `user`; and the body prefers `content` to `text`.
   */
  lemma BodyDiffersFromConverter()
    ensures var msg := Obj(map["role" := Str("system"), "text" := Str("t"), "content" := Str("c")], "Object");
      BodyMessageOf(msg) == BodyMessage(Str("system"), Str("c"))
      && ConvertMessage(msg) == Some(ApiMessage("user", Str("t")))
  {
  }

  // ---------------------------------------------------------------------------
  // The access key
  // ---------------------------------------------------------------------------

  const MissingKeyMessage := "AccessKey ID 未配置，请在设置中配置 API 密钥"

  /**
   * The check at the top of `callDashScopeAPI`: an error before anything is
   * sent when the key id is missing; otherwise the key used as bearer token,
   * the secret when there is one and the id otherwise.
   */
  function ApiKey(accessKeyId: JsValue, accessKeySecret: JsValue): (r: Result<JsValue>)
    ensures r.Failure? <==> !Truthy(accessKeyId)
    ensures r.Failure? ==> r.error == MissingKeyMessage
    ensures r.Success? ==> Truthy(r.value) && (r.value == accessKeySecret || r.value == accessKeyId)
    ensures r.Success? && Truthy(accessKeySecret) ==> r.value == accessKeySecret
  {
    if !Truthy(accessKeyId) then Failure(MissingKeyMessage) else Success(Or(accessKeySecret, accessKeyId))
  }

  // ---------------------------------------------------------------------------
  // The error message of a response that is not OK
  // ---------------------------------------------------------------------------

  const UnauthorizedMessage := "API 密钥无效，请检查 AccessKey ID 和 Secret 是否正确"
  const RateLimitedMessage := "API 调用频率过高，请稍后再试"
  const ForbiddenMessage := "API 访问被拒绝，请检查密钥权限"
  const ServerErrorMessage := "服务器错误，请稍后再试"
  const NetworkMessage := "网络连接失败，请检查网络后重试"

  /** `API 请求失败: ${status} ${statusText}`. */
  function DefaultMessage(status: nat, statusText: string): string {
    "API 请求失败: " + NatToString(status) + " " + statusText
  }

  /** `String(v)` for the values an error message is made of (`new Error(v)`); strings are themselves. */
  function MessageText(v: JsValue, jsString: JsValue -> string): string {
    if v.Str? then v.s else jsString(v)
  }

  /**
   * The message chosen for a response that is not OK. `errorData` is what
   * `response.json()` gave, `None` when it threw; a body that parsed to
   * `null` or `undefined` also falls back to the default message, since
   * reading a property of it throws inside the same `try`.
   */
  function StatusMessage(status: nat, statusText: string, errorData: Option<JsValue>, jsString: JsValue -> string): (r: string)
    ensures errorData.None? || Nullable(errorData.value) ==> r == DefaultMessage(status, statusText)
    ensures errorData.Some? && !Nullable(errorData.value) ==>
      (status == 401 ==> r == UnauthorizedMessage) && (status == 429 ==> r == RateLimitedMessage)
      && (status == 403 ==> r == ForbiddenMessage) && (status >= 500 ==> r == ServerErrorMessage)
  {
    if errorData.None? || Nullable(errorData.value) then DefaultMessage(status, statusText)
    else if status == 401 then UnauthorizedMessage
    else if status == 429 then RateLimitedMessage
    else if status == 403 then ForbiddenMessage
    else if status >= 500 then ServerErrorMessage
    else
      var chosen := Or(Or(Get(errorData.value, "message"), Get(errorData.value, "msg")), Str(DefaultMessage(status, statusText)));
      MessageText(chosen, jsString)
  }

  /**
   * The outer `catch` of `callDashScopeAPI`: an error whose message mentions
   * `Failed to fetch` is replaced by the network message; any other is
   * thrown again as it is.
   */
  function Rethrown(message: string): (r: string)
    ensures Includes(message, "Failed to fetch") ==> r == NetworkMessage
    ensures !Includes(message, "Failed to fetch") ==> r == message
  {
    if message != [] && Includes(message, "Failed to fetch") then NetworkMessage else message
  }

  /** The message of the error `callDashScopeAPI` throws for a response that is not OK. */
  function FailureMessage(status: nat, statusText: string, errorData: Option<JsValue>, jsString: JsValue -> string): (r: string)
    ensures errorData.Some? && !Nullable(errorData.value) ==>
      (status == 401 ==> r == UnauthorizedMessage) && (status == 429 ==> r == RateLimitedMessage)
      && (status == 403 ==> r == ForbiddenMessage) && (status >= 500 ==> r == ServerErrorMessage)
    ensures errorData.Some? && !Nullable(errorData.value) && status !in {401, 403, 429} && status < 500
        && NonEmptyStr(Get(errorData.value, "message")) && Includes(Get(errorData.value, "message").s, "Failed to fetch")
        ==> r == NetworkMessage
  {
    var m := StatusMessage(status, statusText, errorData, jsString);
    assert errorData.Some? && !Nullable(errorData.value) && (status in {401, 403, 429} || status >= 500)
      ==> !Includes(m, "Failed to fetch") by {
      if errorData.Some? && !Nullable(errorData.value) && (status in {401, 403, 429} || status >= 500) {
        FixedMessagesWithoutF();
        WithoutFirstChar(m, "Failed to fetch");
      }
    }
    Rethrown(m)
  }

  /** No fixed message holds an `F`, so none mentions `Failed to fetch` and the outer `catch` throws them again as they are. */
  lemma FixedMessagesWithoutF()
    ensures 'F' !in UnauthorizedMessage && 'F' !in RateLimitedMessage && 'F' !in ForbiddenMessage && 'F' !in ServerErrorMessage
  {
  }

  /** A text without the first character of `p` does not include `p`. */
  lemma {:induction false} WithoutFirstChar(s: string, p: string)
    requires p != [] && p[0] !in s
    ensures !Includes(s, p)
    decreases |s|
  {
    if s != [] {
      assert s[0] in s;
      assert !StartsWith(s, p);
      assert p[0] !in s[1..] by {
        assert forall c :: c in s[1..] ==> c in s;
      }
      WithoutFirstChar(s[1..], p);
    }
  }

  /**
   * The statuses with a fixed message get it whatever the body says, once
   * the body parsed to an object; server errors come next; only the other
   * statuses look at the body's `message` and then `msg`, and fall back to
   * the default message when neither is set.
   */
  lemma StatusMessageDecision(status: nat, statusText: string, data: JsValue, jsString: JsValue -> string)
    requires !Nullable(data)
    ensures status == 401 ==> StatusMessage(status, statusText, Some(data), jsString) == UnauthorizedMessage
    ensures status == 429 ==> StatusMessage(status, statusText, Some(data), jsString) == RateLimitedMessage
    ensures status == 403 ==> StatusMessage(status, statusText, Some(data), jsString) == ForbiddenMessage
    ensures status >= 500 ==> StatusMessage(status, statusText, Some(data), jsString) == ServerErrorMessage
    ensures status !in {401, 403, 429} && status < 500 && NonEmptyStr(Get(data, "message"))
        ==> StatusMessage(status, statusText, Some(data), jsString) == Get(data, "message").s
    ensures status !in {401, 403, 429} && status < 500 && !Truthy(Get(data, "message")) && NonEmptyStr(Get(data, "msg"))
        ==> StatusMessage(status, statusText, Some(data), jsString) == Get(data, "msg").s
    ensures status !in {401, 403, 429} && status < 500 && !Truthy(Get(data, "message")) && !Truthy(Get(data, "msg"))
        ==> StatusMessage(status, statusText, Some(data), jsString) == DefaultMessage(status, statusText)
  {
  }
}
