/**
 * The background worker: forwards the keyboard command to the active tab,
 * and answers a `selectedText` message with exactly one
 * `displayTranslation` message to the sending tab. Storage and the HTTP call
 * are inputs: the stored key, and the outcome the call would have.
 */
module Background {
  import opened Wrappers
  import opened Text
  import opened Messages

  /** The active tab `chrome.tabs.query` returns; its `id` may be missing. */
  datatype Tab = Tab(id: Option<int>)

  /**
   * `onCommand`: the `toggle-translate` command asks the active tab to
   * translate its selection, provided the tab has a (truthy, so non-zero) id.
   * The result is the tab addressed and the message sent, if any.
   */
  function OnCommand(command: string, active: Option<Tab>): (send: Option<(int, TabMessage)>)
    ensures send.Some? ==> send.value.1 == Translate && send.value.0 != 0
    ensures send.Some? <==> command == "toggle-translate" && active.Some? && active.value.id.Some? && active.value.id.value != 0
    ensures send.Some? ==> Some(send.value.0) == active.value.id
  {
    if command == "toggle-translate" && active.Some? && active.value.id.Some? && active.value.id.value != 0
    then Some((active.value.id.value, Translate))
    else None
  }

  const Endpoint: string := "https://api.openai.com/v1/chat/completions"
  const ModelId: string := "gpt-4o"
  const Temperature: real := 0.3

  /** The chat-completion request: the system prompt is fixed and left out, the user turn is the selected text. */
  datatype Request = Request(url: string, model: string, temperature: real, authorization: string, userContent: string)

  /** The JSON body of a response: unreadable (so `response.json()` throws), or `choices[0].message.content` when present. */
  datatype Body = Unreadable(message: string) | Content(content: Option<string>)

  /** What `fetch` does: rejects with an error message, or resolves to a response with a status and a body. */
  datatype HttpOutcome = Rejected(message: string) | Response(status: nat, body: Body)

  /** One observable step of the listener, in the order it happens. */
  datatype Effect = ReadKey | Fetch(request: Request) | SendToTab(tab: int, message: TabMessage)

  const NoTextNotice: string := "No text selected. Please highlight Japanese text first."
  const NoKeyNotice: string := "\U{26A0}\U{FE0F} Please set your OpenAI API key in the extension options."
  const FailurePrefix: string := "\U{26A0}\U{FE0F} Translation failed: "
  const EmptyAnswerNotice: string := "\U{26A0}\U{FE0F} Failed to get a translation."

  /** `response.ok` */
  predicate IsOk(status: nat) {
    200 <= status <= 299
  }

  /** `text` is missing or `!text.trim()`: trimming leaves nothing exactly when all of it is white space. */
  predicate IsBlank(text: Option<string>) {
    text.None? || AllWhiteSpace(text.value)
  }

  /** `!apiKey`: the stored key is missing or empty. */
  predicate KeyMissing(key: Option<string>) {
    key.None? || key.value == []
  }

  function RequestFor(text: string, key: string): Request {
    Request(Endpoint, ModelId, Temperature, "Bearer " + key, text)
  }

  /** The translation sent back once the request has been issued: the `try` and its `catch`. */
  function ReplyFor(outcome: HttpOutcome): (r: string)
    ensures r != []
  {
    match outcome
    case Rejected(m) => FailurePrefix + m
    case Response(status, body) =>
      if !IsOk(status) then FailurePrefix + "OpenAI API error: " + Decimal(status)
      else match body
        case Unreadable(m) => FailurePrefix + m
        case Content(c) =>
          if c.None? || AllWhiteSpace(c.value) then EmptyAnswerNotice else Trim(c.value)
  }

  /**
   * What the listener does before it replies: it reads the stored key once
   * the text is not blank, and makes the request once a key is also stored.
   */
  function Preliminaries(text: Option<string>, key: Option<string>): (steps: seq<Effect>)
    ensures forall i :: 0 <= i < |steps| ==> !steps[i].SendToTab?
  {
    if IsBlank(text) then []
    else if KeyMissing(key) then [ReadKey]
    else [ReadKey, Fetch(RequestFor(text.value, key.value))]
  }

  /** The translation sent back: the notice for blank text, the notice for a missing key, or what the request brought. */
  function Translation(text: Option<string>, key: Option<string>, outcome: HttpOutcome): (r: string)
    ensures r != []
  {
    if IsBlank(text) then NoTextNotice
    else if KeyMissing(key) then NoKeyNotice
    else ReplyFor(outcome)
  }

  /**
   * The `runtime.onMessage` listener: the steps it takes for one message
   * from tab `sender`, given the stored key and what the request would bring.
   * A `selectedText` message is answered by exactly one send, to the sender,
   * as the last step.
   */
  function OnMessage(message: RuntimeMessage, sender: int, key: Option<string>, outcome: HttpOutcome): (effects: seq<Effect>)
    ensures message.action != Some("selectedText") ==> effects == []
    ensures message.action == Some("selectedText") ==>
      && effects != []
      && effects[|effects| - 1] == SendToTab(sender, DisplayTranslation(Translation(message.text, key, outcome)))
      && forall i :: 0 <= i < |effects| - 1 ==> !effects[i].SendToTab?
  {
    if message.action != Some("selectedText") then []
    else
      var steps := Preliminaries(message.text, key);
      var effects := steps + [SendToTab(sender, DisplayTranslation(Translation(message.text, key, outcome)))];
      assert forall i :: 0 <= i < |effects| - 1 ==> effects[i] == steps[i];
      effects
  }

  /** The translation the tab is sent, when one is. */
  function Reply(message: RuntimeMessage, sender: int, key: Option<string>, outcome: HttpOutcome): Option<string> {
    var effects := OnMessage(message, sender, key, outcome);
    if effects == [] then None else Some(effects[|effects| - 1].message.translation)
  }

  predicate Fetches(effects: seq<Effect>) {
    exists i :: 0 <= i < |effects| && effects[i].Fetch?
  }

  /**
   * The request is made exactly when the text is not blank and a key is
   * stored; it carries the untrimmed text, the fixed model and temperature,
   * and the key as a bearer token; and the key is read exactly when the text
   * is not blank.
   */
  lemma RequestIffTextAndKey(message: RuntimeMessage, sender: int, key: Option<string>, outcome: HttpOutcome)
    requires message.action == Some("selectedText")
    ensures var effects := OnMessage(message, sender, key, outcome);
      && (Fetches(effects) <==> !IsBlank(message.text) && !KeyMissing(key))
      && (ReadKey in effects <==> !IsBlank(message.text))
      && (forall i :: 0 <= i < |effects| && effects[i].Fetch? ==>
            effects[i].request == Request(Endpoint, "gpt-4o", 0.3, "Bearer " + key.value, message.text.value))
  {
    var effects := OnMessage(message, sender, key, outcome);
    var send := SendToTab(sender, DisplayTranslation(Translation(message.text, key, outcome)));
    assert effects == Preliminaries(message.text, key) + [send];
    if IsBlank(message.text) {
      assert effects == [send];
    } else if KeyMissing(key) {
      assert effects == [ReadKey, send];
    } else {
      assert effects == [ReadKey, Fetch(RequestFor(message.text.value, key.value)), send];
      assert effects[1].Fetch?;
    }
  }

  /** Blank or missing text is answered with the fixed notice, before any key is read. */
  lemma BlankTextNotice(message: RuntimeMessage, sender: int, key: Option<string>, outcome: HttpOutcome)
    requires message.action == Some("selectedText") && IsBlank(message.text)
    ensures OnMessage(message, sender, key, outcome) ==
      [SendToTab(sender, DisplayTranslation("No text selected. Please highlight Japanese text first."))]
  {
  }

  /** Text with no stored key is answered with the fixed notice and no request. */
  lemma MissingKeyNotice(message: RuntimeMessage, sender: int, key: Option<string>, outcome: HttpOutcome)
    requires message.action == Some("selectedText") && !IsBlank(message.text) && KeyMissing(key)
    ensures Reply(message, sender, key, outcome) ==
      Some("\U{26A0}\U{FE0F} Please set your OpenAI API key in the extension options.")
    ensures !Fetches(OnMessage(message, sender, key, outcome))
  {
    var send := SendToTab(sender, DisplayTranslation(NoKeyNotice));
    assert OnMessage(message, sender, key, outcome) == Preliminaries(message.text, key) + [send] == [ReadKey, send];
  }

  /**
   * Once the request is made, the reply depends only on its outcome: a
   * failed status or a thrown error gives the failure notice with the
   * error's message; a 2xx gives the trimmed answer, or the generic notice
   * when that is missing or blank.
   */
  lemma ReplyByOutcome(message: RuntimeMessage, sender: int, key: Option<string>, outcome: HttpOutcome)
    requires message.action == Some("selectedText") && !IsBlank(message.text) && !KeyMissing(key)
    ensures var reply := Reply(message, sender, key, outcome).value;
      && (outcome.Rejected? ==> reply == FailurePrefix + outcome.message)
      && (outcome.Response? && !IsOk(outcome.status) ==>
            reply == FailurePrefix + "OpenAI API error: " + Decimal(outcome.status))
      && (outcome.Response? && IsOk(outcome.status) && outcome.body.Unreadable? ==>
            reply == FailurePrefix + outcome.body.message)
      && (outcome.Response? && IsOk(outcome.status) && outcome.body.Content? ==>
            (outcome.body.content.None? || AllWhiteSpace(outcome.body.content.value) ==> reply == EmptyAnswerNotice) &&
            (outcome.body.content.Some? && !AllWhiteSpace(outcome.body.content.value) ==>
               reply == Trim(outcome.body.content.value) && Tidy(reply) && reply != []))
  {
    RepliesWithOutcome(message, sender, key, outcome);
  }

  /** Once the request is made, the translation sent is the one its outcome determines. */
  lemma RepliesWithOutcome(message: RuntimeMessage, sender: int, key: Option<string>, outcome: HttpOutcome)
    requires message.action == Some("selectedText") && !IsBlank(message.text) && !KeyMissing(key)
    ensures Reply(message, sender, key, outcome) == Some(ReplyFor(outcome))
  {
  }
}
