/**
 * The popup: a status line, a toggle-styled button, and the redirect of the
 * active tab to its Freedium address.
 */
module Popup {
  import opened Base
  import opened Urls

  /** The `type` argument of the status update. */
  datatype StatusType = SuccessStatus | ErrorStatus | ProcessingStatus

  /** The configured colour of each status type: processing shares the success green. */
  function StatusColor(kind: StatusType): (c: string)
    ensures c == "#4caf50" <==> kind != ErrorStatus
    ensures kind == ErrorStatus ==> c == "#d9534f"
  {
    match kind
    case SuccessStatus => "#4caf50"
    case ErrorStatus => "#d9534f"
    case ProcessingStatus => "#4caf50"
  }

  /** What the tab query reports for a tab: its id and, when readable, its URL. */
  datatype Tab = Tab(id: int, url: Option<string>)

  /** A `tabs.update` call: the tab and its new URL. */
  datatype TabUpdate = TabUpdate(tab: int, url: string)

  /**
   * The tab update the redirect makes for the result of the active-tab query:
   * one, for the first tab, exactly when its URL is a Medium URL.
   */
  function Redirect(tabs: seq<Tab>): (u: Option<TabUpdate>)
    ensures u.Some? <==> |tabs| > 0 && tabs[0].url.Some? && IsMediumUrl(tabs[0].url.value)
    ensures u.Some? ==> u.value.tab == tabs[0].id && u.value.url == FreediumUrl(tabs[0].url.value)
  {
    if |tabs| > 0 && tabs[0].url.Some? && IsMediumUrl(tabs[0].url.value) then
      Some(TabUpdate(tabs[0].id, FreediumUrl(tabs[0].url.value)))
    else
      None
  }

  /** The redirect sends the active tab to an address that strips back to the page it showed. */
  lemma RedirectRecoversPage(tabs: seq<Tab>)
    requires Redirect(tabs).Some?
    ensures StripRedirect(Redirect(tabs).value.url) == tabs[0].url
    ensures IsMediumUrl(Redirect(tabs).value.url)
  {
    StripAfterRedirect(tabs[0].url.value);
    RedirectStaysMedium(tabs[0].url.value);
  }

  /** The popup's state: the status line, the button's `active` class, and its effects. */
  class View {
    var statusText: string
    var statusColor: string
    var buttonActive: bool
    var tabUpdates: seq<TabUpdate>
    var notifications: nat   // notification requests made

    constructor (text: string, color: string)
      ensures statusText == text && statusColor == color
      ensures !buttonActive && tabUpdates == [] && notifications == 0
    {
      statusText := text;
      statusColor := color;
      buttonActive := false;
      tabUpdates := [];
      notifications := 0;
    }

    /** Shows `message` in the colour of `kind`, which is the processing type unless given. */
    method UpdateStatus(message: string, kind: StatusType := ProcessingStatus)
      modifies this
      ensures statusText == message && statusColor == StatusColor(kind)
      ensures buttonActive == old(buttonActive) && tabUpdates == old(tabUpdates)
      ensures notifications == old(notifications)
    {
      statusText := message;
      statusColor := StatusColor(kind);
    }

    /**
     * The redirect, given the active-tab query's result. With no tab or no
     * readable URL the query callback throws and the status stays at
     * "Processing...".
     */
    method RedirectToFreedium(tabs: seq<Tab>)
      modifies this
      ensures tabUpdates == old(tabUpdates) + (if Redirect(tabs).Some? then [Redirect(tabs).value] else [])
      ensures notifications == old(notifications) + (if Redirect(tabs).Some? then 1 else 0)
      ensures Redirect(tabs).Some? ==>
        statusText == "Redirecting to Freedium..." && statusColor == StatusColor(SuccessStatus)
      ensures Redirect(tabs).None? && |tabs| > 0 && tabs[0].url.Some? ==>
        statusText == "This is not a Medium article." && statusColor == StatusColor(ErrorStatus)
      ensures (|tabs| == 0 || tabs[0].url.None?) ==>
        statusText == "Processing..." && statusColor == StatusColor(ProcessingStatus)
      ensures buttonActive == old(buttonActive)
    {
      UpdateStatus("Processing...");
      if |tabs| == 0 || tabs[0].url.None? {
        return;
      }
      var currentUrl := tabs[0].url.value;
      if IsMediumUrl(currentUrl) {
        var freediumUrl := FreediumUrl(currentUrl);
        tabUpdates := tabUpdates + [TabUpdate(tabs[0].id, freediumUrl)];
        UpdateStatus("Redirecting to Freedium...", SuccessStatus);
        notifications := notifications + 1;
      } else {
        UpdateStatus("This is not a Medium article.", ErrorStatus);
      }
    }

    /** The button's click listener: toggle `active`, then redirect. */
    method OnButtonClick(tabs: seq<Tab>)
      modifies this
      ensures buttonActive == !old(buttonActive)
      ensures tabUpdates == old(tabUpdates) + (if Redirect(tabs).Some? then [Redirect(tabs).value] else [])
      ensures notifications == old(notifications) + (if Redirect(tabs).Some? then 1 else 0)
      ensures Redirect(tabs).Some? ==> statusText == "Redirecting to Freedium..."
      ensures Redirect(tabs).None? && |tabs| > 0 && tabs[0].url.Some? ==>
        statusText == "This is not a Medium article."
    {
      buttonActive := !buttonActive;
      RedirectToFreedium(tabs);
    }
  }
}
