/**
 * What the three scripts exchange: the stored settings and the
 * request/response messages of the extension's runtime messaging.
 */
module Protocol {
  import opened Base

  /** The `settings` object in extension storage; each field may be missing. */
  datatype Settings = Settings(
    option1: Option<bool>,
    option2: Option<bool>,
    openInNewTab: Option<bool>,
    enableButton: Option<bool>)

  /** The keys of extension storage the scripts read and write. */
  datatype Storage = Storage(
    isEnabled: Option<bool>,
    settings: Option<Settings>,
    darkMode: Option<bool>)

  /** The settings written on first install. */
  const DefaultSettings: Settings :=
    Settings(Some(true), Some(false), Some(true), Some(true))

  /** A runtime message: an action name and the optional fields some actions carry. */
  datatype Message = Message(
    action: string,
    isEnabled: Option<bool>,
    darkMode: Option<bool>,
    url: Option<string>)

  const PingAction := "ping"
  const PerformAction := "performAction"
  const InjectButtonAction := "injectButton"
  const VisibilityAction := "updateButtonVisibility"
  const ThemeAction := "updateTheme"
  const ButtonInjectedAction := "buttonInjected"
  const GetSettingsAction := "getSettings"
  const OpenInNewTabAction := "openInNewTab"

  /** A message that carries only its action. */
  function Plain(action: string): Message {
    Message(action, None, None, None)
  }

  /** The response objects passed to `sendResponse`. */
  datatype Response =
    | Alive                                // {status: "alive"}
    | StatusText(text: string)             // {status: text}
    | Success                              // {success: true}
    | Failure(error: string)               // {error: message}
    | SettingsReply(settings: Option<Settings>)  // {settings: data.settings}
}
