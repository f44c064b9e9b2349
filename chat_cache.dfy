/**
 * `useChatLocalCache`: the minimal persisted form of chat messages and
 * chats, the restore that adds the display-only fields back, and the
 * normalisation that reading and writing the cache apply. `localStorage`
 * and the JSON text are not modelled: reading starts from the value the
 * stored text parsed to, and writing ends with the value that is
 * serialised plus the text stored for the current chat id.
 */
module ChatCache {
  import opened Wrappers
  import opened JsValues

  /** `CHAT_CACHE_KEYS`. */
  const HistoryKey := "aiTutorChatHistory"
  const CurrentChatIdKey := "aiTutorCurrentChatId"

  /** The title of a chat that has none. */
  const DefaultTitle := "新对话"

  /** What `snapshotMessage` keeps of a message; `time` is `undefined` (`None`) when it was not a string. */
  datatype Snapshot = Snapshot(role: string, text: string, time: Option<string>, followUp: JsValue)

  /** What a snapshot always is: a non-empty role and text, and a `followUp` that is never `undefined`. */
  predicate WellFormedSnapshot(s: Snapshot) {
    s.role != [] && s.text != [] && !s.followUp.Undefined?
  }

  /**
   * `snapshotMessage(msg)`: `null` unless `msg` is a plain object with a
   * non-empty string `role` and a non-empty string `text`.
   */
  function SnapshotMessage(msg: JsValue): (r: Option<Snapshot>)
    ensures r.Some? <==> IsPlainObject(msg) && NonEmptyStr(Get(msg, "role")) && NonEmptyStr(Get(msg, "text"))
    ensures r.Some? ==> WellFormedSnapshot(r.value) && r.value.role == Get(msg, "role").s && r.value.text == Get(msg, "text").s
  {
    if !IsPlainObject(msg) then None
    else
      var role := if Get(msg, "role").Str? then Some(Get(msg, "role").s) else None;
      var text := if Get(msg, "text").Str? then Some(Get(msg, "text").s) else None;
      if role.None? || role.value == [] || text.None? || text.value == [] then None
      else
        var time := Get(msg, "time");
        Some(Snapshot(role.value, text.value, if time.Str? then Some(time.s) else None, Nullish(Get(msg, "followUp"), Null)))
  }

  /** A snapshot as the object `snapshotMessage` returns; an absent `time` is left out, as JSON leaves it out. */
  function SnapshotValue(s: Snapshot): JsValue {
    var base := map["role" := Str(s.role), "text" := Str(s.text), "followUp" := s.followUp];
    Obj(if s.time.Some? then base["time" := Str(s.time.value)] else base, "Object")
  }

  /** Snapshotting a snapshot gives it back: the minimal form is a fixed point. */
  lemma SnapshotOfSnapshot(s: Snapshot)
    requires WellFormedSnapshot(s)
    ensures SnapshotMessage(SnapshotValue(s)) == Some(s)
  {
  }

  /** `snapshotMessages(messages)`: `[]` for anything but an array, otherwise the valid messages' snapshots in order. */
  function SnapshotMessages(messages: JsValue): (r: seq<Snapshot>)
    ensures !messages.Arr? ==> r == []
    ensures messages.Arr? ==> |r| <= |messages.items|
    ensures forall i :: 0 <= i < |r| ==> WellFormedSnapshot(r[i])
  {
    if messages.Arr? then
      var r := FilterMap(messages.items, SnapshotMessage);
      FilterMapMembers(messages.items, SnapshotMessage);
      assert forall i :: 0 <= i < |r| ==> r[i] in r;
      r
    else []
  }

  /**
   * The snapshots are exactly the snapshots of the valid messages: nothing
   * invalid gets through, nothing valid is dropped, and the order is kept.
   */
  lemma SnapshotMessagesMeaning(xs: seq<JsValue>, ys: seq<JsValue>)
    ensures SnapshotMessages(Arr(xs + ys)) == SnapshotMessages(Arr(xs)) + SnapshotMessages(Arr(ys))
    ensures forall s :: s in SnapshotMessages(Arr(xs)) <==> exists i :: 0 <= i < |xs| && SnapshotMessage(xs[i]) == Some(s)
    ensures |SnapshotMessages(Arr(xs))| == CountSome(xs, SnapshotMessage)
  {
    FilterMapAppend(xs, ys, SnapshotMessage);
    FilterMapMembers(xs, SnapshotMessage);
    FilterMapLength(xs, SnapshotMessage);
  }

  /** A message as `restoreMessages` rebuilds it, with `displayText` and `isTyping` for the typewriter. */
  datatype Restored = Restored(role: string, text: string, time: string, followUp: JsValue, displayText: string, isTyping: bool)

  /**
   * One element of `restoreMessages`: `null` unless a plain object with
   * string `role` and `text` (empty strings are accepted here); shown in
   * full and not typing.
   */
  function RestoreMessage(msg: JsValue): (r: Option<Restored>)
    ensures r.Some? <==> IsPlainObject(msg) && Get(msg, "role").Str? && Get(msg, "text").Str?
    ensures r.Some? ==> r.value.displayText == r.value.text && !r.value.isTyping
    ensures r.Some? ==> r.value.role == Get(msg, "role").s && r.value.text == Get(msg, "text").s
  {
    if !IsPlainObject(msg) then None
    else if !Get(msg, "role").Str? || !Get(msg, "text").Str? then None
    else
      var time := Get(msg, "time");
      Some(Restored(Get(msg, "role").s, Get(msg, "text").s, if time.Str? then time.s else "",
                    Nullish(Get(msg, "followUp"), Null), Get(msg, "text").s, false))
  }

  /** Restore is laxer than snapshot: a message with an empty text is restored, but never snapshotted. */
  lemma RestoreAcceptsEmptyText(role: string)
    ensures var m := Obj(map["role" := Str(role), "text" := Str("")], "Object");
      SnapshotMessage(m).None? && RestoreMessage(m) == Some(Restored(role, "", "", Null, "", false))
  {
  }

  /** `restoreMessages(savedMessages)`. */
  function RestoreMessages(saved: JsValue): (r: seq<Restored>)
    ensures !saved.Arr? ==> r == []
    ensures forall m :: m in r ==> m.displayText == m.text && !m.isTyping
  {
    if saved.Arr? then
      var r := FilterMap(saved.items, RestoreMessage);
      FilterMapMembers(saved.items, RestoreMessage);
      r
    else []
  }

  /** What restoring a snapshot gives: the snapshot, shown in full, an absent time as `''`. */
  function RestoredOf(s: Snapshot): Restored {
    Restored(s.role, s.text, if s.time.Some? then s.time.value else "", Nullish(s.followUp, Null), s.text, false)
  }

  /**
   * Restoring what was snapshotted loses no message and keeps each one's
   * role, text, time and follow-up, in order.
   */
  lemma RestoreAfterSnapshot(messages: JsValue)
    ensures RestoreMessages(Arr(MapSeq(SnapshotMessages(messages), SnapshotValue))) == MapSeq(SnapshotMessages(messages), RestoredOf)
  {
    var ss := SnapshotMessages(messages);
    var vs := MapSeq(ss, SnapshotValue);
    forall i | 0 <= i < |vs| ensures RestoreMessage(vs[i]) == Some(RestoredOfValue(vs[i])) {
      RestoreSnapshotValue(ss[i]);
    }
    FilterMapTotal(vs, RestoreMessage, RestoredOfValue);
    forall i | 0 <= i < |ss| ensures RestoredOfValue(vs[i]) == RestoredOf(ss[i]) {
      RestoreSnapshotValue(ss[i]);
    }
  }

  /** Restoring one snapshot. */
  lemma RestoreSnapshotValue(s: Snapshot)
    ensures RestoreMessage(SnapshotValue(s)) == Some(RestoredOf(s))
  {
  }

  /** The restored form of a plain object with string `role` and `text` (any other value gets a placeholder). */
  function RestoredOfValue(v: JsValue): Restored {
    match RestoreMessage(v)
    case Some(r) => r
    case None => Restored([], [], [], Null, [], false)
  }

  // ---------------------------------------------------------------------------
  // Chats
  // ---------------------------------------------------------------------------

  /** A chat as `normalizeChat` returns it. */
  datatype Chat = Chat(id: string, title: string, messages: seq<Snapshot>, createdAt: string, updatedAt: string)

  predicate WellFormedChat(c: Chat) {
    c.id != [] && forall i :: 0 <= i < |c.messages| ==> WellFormedSnapshot(c.messages[i])
  }

  /**
   * `normalizeChat(chat)`: `null` unless a plain object with a non-empty
   * string `id`; a missing title becomes the default title, the messages are
   * snapshotted, and a missing timestamp becomes `now`
   * (`new Date().toISOString()`).
   */
  function NormalizeChat(chat: JsValue, now: string): (r: Option<Chat>)
    ensures r.Some? <==> IsPlainObject(chat) && NonEmptyStr(Get(chat, "id"))
    ensures r.Some? ==> WellFormedChat(r.value) && r.value.id == Get(chat, "id").s
    ensures r.Some? ==> (r.value.title == if Get(chat, "title").Str? then Get(chat, "title").s else DefaultTitle)
  {
    if !IsPlainObject(chat) then None
    else
      var id := if Get(chat, "id").Str? then Some(Get(chat, "id").s) else None;
      if id.None? || id.value == [] then None
      else
        var title := Get(chat, "title");
        var messages := Get(chat, "messages");
        var createdAt := Get(chat, "createdAt");
        var updatedAt := Get(chat, "updatedAt");
        var snaps := SnapshotMessages(messages);
        Some(Chat(id.value, if title.Str? then title.s else DefaultTitle, snaps,
                  if createdAt.Str? then createdAt.s else now, if updatedAt.Str? then updatedAt.s else now))
  }

  /** A chat as the object that is serialised. */
  function ChatValue(c: Chat): JsValue {
    Obj(map["id" := Str(c.id), "title" := Str(c.title), "messages" := Arr(MapSeq(c.messages, SnapshotValue)),
            "createdAt" := Str(c.createdAt), "updatedAt" := Str(c.updatedAt)], "Object")
  }

  /** Snapshotting the snapshots of a chat gives them back. */
  lemma SnapshotsOfSnapshots(ss: seq<Snapshot>)
    requires forall i :: 0 <= i < |ss| ==> WellFormedSnapshot(ss[i])
    ensures SnapshotMessages(Arr(MapSeq(ss, SnapshotValue))) == ss
  {
    var vs := MapSeq(ss, SnapshotValue);
    forall i | 0 <= i < |vs| ensures SnapshotMessage(vs[i]) == Some(SnapshotOfValue(vs[i])) {
      SnapshotOfSnapshot(ss[i]);
    }
    FilterMapTotal(vs, SnapshotMessage, SnapshotOfValue);
    assert MapSeq(vs, SnapshotOfValue) == ss by {
      forall i | 0 <= i < |ss| ensures SnapshotOfValue(vs[i]) == ss[i] {
        SnapshotOfSnapshot(ss[i]);
      }
    }
  }

  /** The snapshot of a valid message (any other value gets a placeholder). */
  function SnapshotOfValue(v: JsValue): Snapshot {
    match SnapshotMessage(v)
    case Some(s) => s
    case None => Snapshot([], [], None, Null)
  }

  /** Normalising a normalised chat gives it back, whatever the clock says. */
  lemma NormalizeChatIdempotent(c: Chat, now: string)
    requires WellFormedChat(c)
    ensures NormalizeChat(ChatValue(c), now) == Some(c)
  {
    SnapshotsOfSnapshots(c.messages);
  }

  /** `chatHistory.map(normalizeChat).filter(Boolean)` for an array, `[]` for anything else. */
  function NormalizeHistory(history: JsValue, now: string): (r: seq<Chat>)
    ensures forall i :: 0 <= i < |r| ==> WellFormedChat(r[i])
  {
    if history.Arr? then
      var r := FilterMap(history.items, (c: JsValue) => NormalizeChat(c, now));
      FilterMapMembers(history.items, (c: JsValue) => NormalizeChat(c, now));
      assert forall i :: 0 <= i < |r| ==> r[i] in r;
      r
    else []
  }

  /** A history of normalised chats normalises to itself. */
  lemma {:induction false} NormalizeHistoryIdempotent(h: seq<Chat>, now: string)
    requires forall i :: 0 <= i < |h| ==> WellFormedChat(h[i])
    ensures NormalizeHistory(Arr(MapSeq(h, ChatValue)), now) == h
  {
    var vs := MapSeq(h, ChatValue);
    var f := (c: JsValue) => NormalizeChat(c, now);
    var g := (c: JsValue) => NormalizedOf(c, now);
    forall i | 0 <= i < |vs| ensures f(vs[i]) == Some(g(vs[i])) {
      NormalizeChatIdempotent(h[i], now);
    }
    FilterMapTotal(vs, f, g);
    forall i | 0 <= i < |h| ensures g(vs[i]) == h[i] {
      NormalizeChatIdempotent(h[i], now);
    }
  }

  /** The normalised form of a valid chat (any other value gets a placeholder). */
  function NormalizedOf(v: JsValue, now: string): Chat {
    match NormalizeChat(v, now)
    case Some(c) => c
    case None => Chat([], [], [], [], [])
  }

  // ---------------------------------------------------------------------------
  // Reading and writing the cache
  // ---------------------------------------------------------------------------

  /** What `readChatCache` returns. */
  datatype CacheState = CacheState(chatHistory: seq<Chat>, currentChatId: Option<string>)

  /** `currentChatId` as read: the stored text when there is a non-empty one, `null` otherwise. */
  function ReadChatId(raw: Option<string>): (r: Option<string>)
    ensures r.Some? <==> raw.Some? && raw.value != []
    ensures r.Some? ==> r == raw
  {
    if raw.Some? && raw.value != [] then raw else None
  }

  /**
   * `readChatCache()`. `stored` is what the two `getItem` calls gave, or a
   * failure when storage throws; the history item is given as the value its
   * text parsed to, `None` when it is absent, empty or not JSON
   * (`safeJsonParse(raw, [])` then falls back to `[]`).
   */
  function ReadChatCache(stored: Result<(Option<JsValue>, Option<string>)>, now: string): (r: Option<CacheState>)
    ensures r.None? <==> stored.Failure?
    ensures r.Some? ==> forall i :: 0 <= i < |r.value.chatHistory| ==> WellFormedChat(r.value.chatHistory[i])
    ensures r.Some? ==> r.value.currentChatId.Some? ==> r.value.currentChatId.value != []
  {
    match stored
    case Failure(_) => None
    case Success((parsedHistory, rawChatId)) =>
      var parsed := if parsedHistory.Some? then parsedHistory.value else Arr([]);
      Some(CacheState(NormalizeHistory(parsed, now), ReadChatId(rawChatId)))
  }

  /** What `writeChatCache` hands to storage: the normalised history and the item for the current chat id (`None`: removed). */
  datatype CacheWrite = CacheWrite(history: seq<Chat>, chatIdItem: Option<string>)

  /**
   * The text `writeChatCache` stores for the current chat id, as written:
   * `setItem(key, null)` converts `null` to the text `null`.
   */
  function StoredChatIdAsWritten(currentChatId: JsValue): string {
    if currentChatId.Str? then currentChatId.s else "null"
  }

  /** As written, a write without a current chat reads back as the chat id `null`. */
  lemma NoChatReadsBackAsNullId()
    ensures ReadChatId(Some(StoredChatIdAsWritten(Null))) == Some("null")
    ensures ReadChatId(Some(StoredChatIdAsWritten(Undefined))) == Some("null")
  {
  }

  /** The item for the current chat id, corrected: removed when there is no string id. */
  function StoredChatId(currentChatId: JsValue): (r: Option<string>)
    ensures r.Some? <==> currentChatId.Str?
  {
    if currentChatId.Str? then Some(currentChatId.s) else None
  }

  /** With the correction, the current chat id reads back as written, and "no chat" as `null`. */
  lemma ChatIdRoundTrip(currentChatId: JsValue)
    ensures ReadChatId(StoredChatId(currentChatId)) == if NonEmptyStr(currentChatId) then Some(currentChatId.s) else None
  {
  }

  /**
   * `writeChatCache(payload)`: the history normalised and the chat id item
   * as written, the text `null` when the id is not a string;
   * `{success: false}` (a failure) instead of an exception when storage
   * refuses. A refusing storage throws a `DOMException`, which is an
   * `Error` and is returned as it is, with the browser's own message; the
   * model does not carry that message, and the failure's text is the one
   * the source gives only to a thrown value that is not an `Error`.
   */
  function WriteChatCache(payload: JsValue, now: string, available: bool): (r: Result<CacheWrite>)
    ensures r.Success? <==> available
    ensures r.Success? ==> forall i :: 0 <= i < |r.value.history| ==> WellFormedChat(r.value.history[i])
    ensures r.Success? ==> var id := Get(payload, "currentChatId");
      (id.Str? ==> r.value.chatIdItem == Some(id.s)) && (!id.Str? ==> r.value.chatIdItem == Some("null"))
  {
    if !available then Failure("写入缓存失败")
    else Success(CacheWrite(NormalizeHistory(Get(payload, "chatHistory"), now), Some(StoredChatIdAsWritten(Get(payload, "currentChatId")))))
  }

  /**
   * Reading back what was written gives the normalised history, whenever
   * the clocks of the two calls say; the current chat id comes back when it
   * was a non-empty string, an empty one as `null`, and a missing one as the
   * chat id `"null"`.
   */
  lemma CacheRoundTrip(payload: JsValue, now: string, later: string)
    ensures var w := WriteChatCache(payload, now, true).value;
      var id := Get(payload, "currentChatId");
      ReadChatCache(Success((Some(Arr(MapSeq(w.history, ChatValue))), w.chatIdItem)), later)
        == Some(CacheState(w.history, if NonEmptyStr(id) then Some(id.s) else if id.Str? then None else Some("null")))
  {
    var w := WriteChatCache(payload, now, true).value;
    NormalizeHistoryIdempotent(w.history, later);
  }

  /**
   * `writeChatCache` with the correction: the chat id item is removed when
   * the id is not a string. The failure's text stands for the storage's
   * error, as in `WriteChatCache`.
   */
  function WriteChatCacheCorrected(payload: JsValue, now: string, available: bool): (r: Result<CacheWrite>)
    ensures r.Success? <==> available
    ensures r.Success? ==> forall i :: 0 <= i < |r.value.history| ==> WellFormedChat(r.value.history[i])
    ensures r.Success? ==> var id := Get(payload, "currentChatId");
      (id.Str? ==> r.value.chatIdItem == Some(id.s)) && (!id.Str? ==> r.value.chatIdItem.None?)
  {
    if !available then Failure("写入缓存失败")
    else Success(CacheWrite(NormalizeHistory(Get(payload, "chatHistory"), now), StoredChatId(Get(payload, "currentChatId"))))
  }

  /**
   * With the correction, reading back what was written gives the
   * normalised history and the current chat id when it was a non-empty
   * string, and `null` otherwise.
   */
  lemma CacheRoundTripCorrected(payload: JsValue, now: string, later: string)
    ensures var w := WriteChatCacheCorrected(payload, now, true).value;
      var id := Get(payload, "currentChatId");
      ReadChatCache(Success((Some(Arr(MapSeq(w.history, ChatValue))), w.chatIdItem)), later)
        == Some(CacheState(w.history, if NonEmptyStr(id) then Some(id.s) else None))
  {
    var w := WriteChatCacheCorrected(payload, now, true).value;
    NormalizeHistoryIdempotent(w.history, later);
  }
}
