/** The messages passed between the content script and the background worker. */
module Messages {
  import opened Wrappers

  /**
   * A message on `chrome.runtime`, as the background listener sees it: its
   * `action` and `text` properties, each possibly missing. A null message
   * reads as both missing.
   */
  datatype RuntimeMessage = RuntimeMessage(action: Option<string>, text: Option<string>)

  /** `{action: "selectedText", text}`, the only message the content script sends. */
  function SelectedText(text: string): RuntimeMessage {
    RuntimeMessage(Some("selectedText"), Some(text))
  }

  /** A message the background sends to a tab: `{action: "translate"}` or `{action: "displayTranslation", translation}`. */
  datatype TabMessage = Translate | DisplayTranslation(translation: string)
}
