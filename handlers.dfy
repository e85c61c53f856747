/**
 * The two host event handlers.  Each reads the settings through
 * `GetSettings` (which may create or backfill them), checks its gate, and then
 * rewrites message text in place with `RemoveAsterisksFromQuotes`.
 */
module Handlers {
  import opened QuoteText
  import opened Settings

  /** A chat message record as the host hands it over: its text `mes` and,
      when present and an array, its alternative texts `swipes`. */
  class ChatMessage {
    var mes: JsValue
    /** `null` when the record has no `swipes` or it is not an array. */
    var swipes: array?<JsValue>

    constructor (mes: JsValue, swipes: array?<JsValue>)
      ensures this.mes == mes && this.swipes == swipes
    {
      this.mes := mes;
      this.swipes := swipes;
    }
  }

  /**
   * `onMessageReceived(data)`: when the extension is enabled and incoming
   * messages are processed, and `data.mes` is a non-empty string, rewrite
   * `data.mes` and then every non-empty string among `data.swipes`, one index
   * at a time.  Otherwise the message is left untouched (the swipes too, even
   * when only `mes` is missing).
   */
  method OnMessageReceived(settings: ExtensionSettings, data: ChatMessage?)
    modifies settings, data
    modifies if data != null && data.swipes != null then {data.swipes} else {}
    ensures settings.stored == old(settings.stored)[MODULE_NAME := Loaded(old(settings.stored))]
    ensures settings.saveRequested == (old(settings.saveRequested) || MODULE_NAME !in old(settings.stored))
    ensures data != null ==> data.swipes == old(data.swipes)
    ensures data != null ==>
      var go := ShouldProcess(Loaded(old(settings.stored)), Incoming) && IsNonEmptyString(old(data.mes));
      if go then
        && data.mes == Str(Transform(old(data.mes).chars))
        && (data.swipes != null ==> forall i :: 0 <= i < data.swipes.Length ==> data.swipes[i] == RemoveAsterisksFromQuotes(old(data.swipes[i])))
      else
        && data.mes == old(data.mes)
        && (data.swipes != null ==> data.swipes[..] == old(data.swipes[..]))
  {
    var s := settings.GetSettings();
    if !ShouldProcess(s, Incoming) {
      return;
    }
    if data != null && IsNonEmptyString(data.mes) {
      data.mes := RemoveAsterisksFromQuotes(data.mes);
      if data.swipes != null {
        RewriteSwipes(data.swipes);
      }
    }
  }

  /** The loop over `data.swipes`: every non-empty string element is replaced
      by its transform, in place; the other elements stay as they are. */
  method RewriteSwipes(swipes: array<JsValue>)
    modifies swipes
    ensures forall k :: 0 <= k < swipes.Length ==> swipes[k] == RemoveAsterisksFromQuotes(old(swipes[k]))
  {
    ghost var before := swipes[..];
    for i := 0 to swipes.Length
      invariant forall k :: 0 <= k < i ==> swipes[k] == RemoveAsterisksFromQuotes(before[k])
      invariant forall k :: i <= k < swipes.Length ==> swipes[k] == before[k]
    {
      if IsNonEmptyString(swipes[i]) {
        swipes[i] := RemoveAsterisksFromQuotes(swipes[i]);
      }
    }
  }

  /**
   * `onMessageSent()`: when the extension is enabled and outgoing messages are
   * processed, rewrite `mes` of the last entry of the chat, if there is one
   * and its `mes` is a non-empty string.  No other entry, and no `swipes`, is
   * touched.
   */
  method OnMessageSent(settings: ExtensionSettings, chat: seq<ChatMessage?>)
    modifies settings
    modifies if chat != [] && chat[|chat| - 1] != null then {chat[|chat| - 1]} else {}
    ensures settings.stored == old(settings.stored)[MODULE_NAME := Loaded(old(settings.stored))]
    ensures settings.saveRequested == (old(settings.saveRequested) || MODULE_NAME !in old(settings.stored))
    ensures forall k :: 0 <= k < |chat| && chat[k] != null ==> chat[k].swipes == old(chat[k].swipes)
    ensures forall k :: 0 <= k < |chat| && chat[k] != null && chat[k] != chat[|chat| - 1] ==>
      chat[k].mes == old(chat[k].mes)
    ensures chat != [] && chat[|chat| - 1] != null ==>
      var last := chat[|chat| - 1];
      if ShouldProcess(Loaded(old(settings.stored)), Outgoing) then last.mes == RemoveAsterisksFromQuotes(old(last.mes))
      else last.mes == old(last.mes)
  {
    var s := settings.GetSettings();
    if !ShouldProcess(s, Outgoing) {
      return;
    }
    if chat != [] {
      var message := chat[|chat| - 1];
      if message != null && IsNonEmptyString(message.mes) {
        message.mes := RemoveAsterisksFromQuotes(message.mes);
      }
    }
  }
}
