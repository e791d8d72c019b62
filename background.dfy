/**
 * The background script: default settings on install, the runtime message
 * dispatch, and the tab-update handler that pings a Medium tab's content
 * script and then asks it to inject.
 */
module Background {
  import opened Base
  import opened Strings
  import opened Protocol
  import opened Urls

  /** The onInstalled storage callback: defaults are written only when no settings are stored. */
  function InstallDefaults(stored: Storage): (r: Storage)
    ensures r.settings.Some?
    ensures stored.settings.Some? ==> r == stored
    ensures stored.settings.None? ==> r.settings == Some(DefaultSettings) && r.isEnabled == Some(true)
    ensures r.darkMode == stored.darkMode
  {
    if stored.settings.None? then
      stored.(isEnabled := Some(true), settings := Some(DefaultSettings))
    else
      stored
  }

  /** Installing twice is installing once. */
  lemma InstallIdempotent(stored: Storage)
    ensures InstallDefaults(InstallDefaults(stored)) == InstallDefaults(stored)
  {
  }

  /** The tab handler's `enableButton`: the stored field when defined, otherwise true. */
  function ButtonEnabled(settings: Option<Settings>): (e: bool)
    ensures !e <==> settings.Some? && settings.value.enableButton == Some(false)
  {
    if settings.Some? && settings.value.enableButton.Some? then settings.value.enableButton.value else true
  }

  /** The tab handler's own domain test, which is the popup's `isMediumUrl`. */
  function IsMediumSite(url: string): (r: bool)
    ensures r <==> IsMediumUrl(url)
  {
    Contains(url, "medium.com") || Contains(url, "towardsdatascience.com")
  }

  /** The tab handler looks further only at a completed load of a non-empty Medium URL. */
  function ShouldProbe(status: Option<string>, url: Option<string>): (r: bool)
    ensures r <==> status == Some("complete") && url.Some? && url.value != "" && IsMediumUrl(url.value)
  {
    status == Some("complete") && url.Some? && url.value != "" && IsMediumSite(url.value)
  }

  /** A message sent to the content script of a tab. */
  datatype TabMessage = TabMessage(tab: int, action: string)

  /** The response and whether the listener returned true (keeping the channel open). */
  datatype Reply = Reply(response: Response, keepOpen: bool)

  /**
   * The runtime.onMessage listener. `lastError` is the error the storage read
   * or tab creation made for the request reported, if any; a request whose
   * `action` cannot be read (none at all) makes the listener throw.
   */
  function Respond(request: Option<Message>, stored: Storage, lastError: Option<string>): (r: Reply)
    ensures r.keepOpen <==>
      request.Some? && request.value.action in {GetSettingsAction, OpenInNewTabAction, ButtonInjectedAction}
    ensures !r.keepOpen ==> r.response.Failure?
    ensures request.None? ==> r.response == Failure("Internal error occurred")
    ensures request.Some? && !r.keepOpen ==> r.response == Failure("Unknown action")
    ensures r.response.Failure? && r.keepOpen ==> lastError.Some?
    ensures request.Some? && request.value.action == ButtonInjectedAction ==> r.response == Success
    ensures request.Some? && request.value.action == GetSettingsAction && lastError.None? ==>
      r.response == SettingsReply(stored.settings)
    ensures request.Some? && request.value.action == OpenInNewTabAction && lastError.None? ==>
      r.response == Success
    ensures request.Some? && request.value.action in {GetSettingsAction, OpenInNewTabAction} && lastError.Some? ==>
      r.response == Failure(lastError.value)
  {
    match request
    case None => Reply(Failure("Internal error occurred"), false)
    case Some(m) =>
      if m.action == GetSettingsAction then
        Reply(if lastError.Some? then Failure(lastError.value) else SettingsReply(stored.settings), true)
      else if m.action == OpenInNewTabAction then
        Reply(if lastError.Some? then Failure(lastError.value) else Success, true)
      else if m.action == ButtonInjectedAction then
        Reply(Success, true)
      else
        Reply(Failure("Unknown action"), false)
  }

  /** The background worker: storage, and what it has sent to tabs and is waiting for. */
  class Worker {
    var storage: Storage
    var sent: seq<TabMessage>
    var awaitingPing: seq<int>     // tabs pinged whose answer has not come back
    var delayed: seq<int>          // tabs whose 1000 ms retry timer is running
    var createdTabs: seq<Option<string>>  // tabs created for openInNewTab

    /** Only pings and inject requests are sent, and every tab's pings are balanced. */
    ghost predicate Valid()
      reads this
    {
      OnlyProtocol(sent) && Balanced(sent, awaitingPing, delayed)
    }

    constructor (stored: Storage)
      ensures Valid()
      ensures storage == stored && sent == [] && awaitingPing == [] && delayed == [] && createdTabs == []
    {
      storage := stored;
      sent := [];
      awaitingPing := [];
      delayed := [];
      createdTabs := [];
    }

    /** The onInstalled listener. */
    method OnInstalled()
      requires Valid()
      modifies this
      ensures Valid() && storage == InstallDefaults(old(storage))
      ensures sent == old(sent) && awaitingPing == old(awaitingPing) && delayed == old(delayed)
      ensures createdTabs == old(createdTabs)
    {
      if storage.settings.None? {
        storage := storage.(isEnabled := Some(true), settings := Some(DefaultSettings));
      }
    }

    /** The runtime.onMessage listener; a tab is opened for a successful openInNewTab. */
    method HandleMessage(request: Option<Message>, lastError: Option<string>) returns (reply: Reply)
      requires Valid()
      modifies this
      ensures Valid() && reply == Respond(request, storage, lastError)
      ensures createdTabs == old(createdTabs) +
        (if request.Some? && request.value.action == OpenInNewTabAction && lastError.None?
         then [request.value.url] else [])
      ensures storage == old(storage) && sent == old(sent)
      ensures awaitingPing == old(awaitingPing) && delayed == old(delayed)
    {
      if request.None? {
        return Reply(Failure("Internal error occurred"), false);
      }
      var m := request.value;
      if m.action == GetSettingsAction {
        if lastError.Some? {
          reply := Reply(Failure(lastError.value), true);
        } else {
          reply := Reply(SettingsReply(storage.settings), true);
        }
      } else if m.action == OpenInNewTabAction {
        if lastError.Some? {
          reply := Reply(Failure(lastError.value), true);
        } else {
          createdTabs := createdTabs + [m.url];
          reply := Reply(Success, true);
        }
      } else if m.action == ButtonInjectedAction {
        reply := Reply(Success, true);
      } else {
        reply := Reply(Failure("Unknown action"), false);
      }
    }

    /**
     * tabs.onUpdated: on a completed Medium load, and unless the storage read
     * failed or the button is disabled, the tab is pinged.
     */
    method OnTabUpdated(tab: int, status: Option<string>, url: Option<string>, storageError: bool)
      requires Valid()
      modifies this
      ensures Valid()
      ensures var probe := ShouldProbe(status, url) && !storageError && ButtonEnabled(storage.settings);
              sent == old(sent) + (if probe then [TabMessage(tab, PingAction)] else []) &&
              awaitingPing == old(awaitingPing) + (if probe then [tab] else [])
      ensures storage == old(storage) && delayed == old(delayed) && createdTabs == old(createdTabs)
    {
      if status == Some("complete") && url.Some? && url.value != "" {
        if IsMediumSite(url.value) {
          if storageError {
            return;
          }
          var enableButton := ButtonEnabled(storage.settings);
          if enableButton {
            PingKeepsBalance(sent, awaitingPing, delayed, tab);
            SendKeepsProtocol(sent, tab);
            sent := sent + [TabMessage(tab, PingAction)];
            awaitingPing := awaitingPing + [tab];
          }
        }
      }
    }

    /**
     * The answer to ping `k` comes back: an answered ping is followed by the
     * inject request at once, an unanswered one by a single retry after 1000 ms.
     */
    method OnPingAnswered(k: nat, answered: bool)
      requires Valid() && k < |awaitingPing|
      modifies this
      ensures Valid()
      ensures awaitingPing == RemoveAt(old(awaitingPing), k)
      ensures var tab := old(awaitingPing)[k];
              if answered then
                sent == old(sent) + [TabMessage(tab, InjectButtonAction)] && delayed == old(delayed)
              else
                sent == old(sent) && delayed == old(delayed) + [tab]
      ensures storage == old(storage) && createdTabs == old(createdTabs)
    {
      if answered {
        InjectAfterPing(k);
      } else {
        DelayAfterPing(k);
      }
    }

    /** Ping `k` was answered: the inject request follows at once. */
    method InjectAfterPing(k: nat)
      requires Valid() && k < |awaitingPing|
      modifies this
      ensures Valid()
      ensures awaitingPing == RemoveAt(old(awaitingPing), k)
      ensures sent == old(sent) + [TabMessage(old(awaitingPing)[k], InjectButtonAction)]
      ensures delayed == old(delayed) && storage == old(storage) && createdTabs == old(createdTabs)
    {
      var tab := awaitingPing[k];
      var sent', rest := sent + [TabMessage(tab, InjectButtonAction)], RemoveAt(awaitingPing, k);
      AnswerKeepsBalance(sent, awaitingPing, delayed, k, true);
      SendKeepsProtocol(sent, tab);
      sent, awaitingPing := sent', rest;
    }

    /** Ping `k` failed: its tab's retry timer starts. */
    method DelayAfterPing(k: nat)
      requires Valid() && k < |awaitingPing|
      modifies this
      ensures Valid()
      ensures awaitingPing == RemoveAt(old(awaitingPing), k)
      ensures delayed == old(delayed) + [old(awaitingPing)[k]]
      ensures sent == old(sent) && storage == old(storage) && createdTabs == old(createdTabs)
    {
      var tab := awaitingPing[k];
      AnswerKeepsBalance(sent, awaitingPing, delayed, k, false);
      delayed, awaitingPing := delayed + [tab], RemoveAt(awaitingPing, k);
    }

    /** Retry timer `k` fires: the inject request is sent, and nothing is retried after it. */
    method OnRetryElapsed(k: nat)
      requires Valid() && k < |delayed|
      modifies this
      ensures Valid()
      ensures sent == old(sent) + [TabMessage(old(delayed)[k], InjectButtonAction)]
      ensures delayed == RemoveAt(old(delayed), k) && awaitingPing == old(awaitingPing)
      ensures storage == old(storage) && createdTabs == old(createdTabs)
    {
      var tab := delayed[k];
      var sent', rest := sent + [TabMessage(tab, InjectButtonAction)], RemoveAt(delayed, k);
      RetryKeepsBalance(sent, awaitingPing, delayed, k);
      SendKeepsProtocol(sent, tab);
      delayed, sent := rest, sent';
    }
  }

  /** Only pings and inject requests are ever sent to a tab. */
  ghost predicate OnlyProtocol(sent: seq<TabMessage>) {
    forall k :: 0 <= k < |sent| ==> sent[k].action in {PingAction, InjectButtonAction}
  }

  lemma SendKeepsProtocol(sent: seq<TabMessage>, tab: int)
    requires OnlyProtocol(sent)
    ensures OnlyProtocol(sent + [TabMessage(tab, InjectButtonAction)])
    ensures OnlyProtocol(sent + [TabMessage(tab, PingAction)])
  {
  }

  /**
   * For every tab, each ping sent is matched by exactly one inject request:
   * sent already, or pending behind an unanswered ping or a running retry timer.
   */
  ghost predicate Balanced(sent: seq<TabMessage>, awaiting: seq<int>, delayed: seq<int>) {
    forall t :: multiset(sent)[TabMessage(t, PingAction)] ==
      multiset(sent)[TabMessage(t, InjectButtonAction)] + multiset(awaiting)[t] + multiset(delayed)[t]
  }

  lemma PingKeepsBalance(sent: seq<TabMessage>, awaiting: seq<int>, delayed: seq<int>, tab: int)
    requires Balanced(sent, awaiting, delayed)
    ensures Balanced(sent + [TabMessage(tab, PingAction)], awaiting + [tab], delayed)
  {
    forall t
      ensures multiset(sent + [TabMessage(tab, PingAction)])[TabMessage(t, PingAction)] ==
        multiset(sent + [TabMessage(tab, PingAction)])[TabMessage(t, InjectButtonAction)] +
        multiset(awaiting + [tab])[t] + multiset(delayed)[t]
    {
      assert multiset(sent + [TabMessage(tab, PingAction)]) == multiset(sent) + multiset{TabMessage(tab, PingAction)};
      assert multiset(awaiting + [tab]) == multiset(awaiting) + multiset{tab};
    }
  }

  lemma AnswerKeepsBalance(sent: seq<TabMessage>, awaiting: seq<int>, delayed: seq<int>, k: nat, answered: bool)
    requires Balanced(sent, awaiting, delayed) && k < |awaiting|
    ensures answered ==>
      Balanced(sent + [TabMessage(awaiting[k], InjectButtonAction)], RemoveAt(awaiting, k), delayed)
    ensures !answered ==> Balanced(sent, RemoveAt(awaiting, k), delayed + [awaiting[k]])
  {
    var tab := awaiting[k];
    var rest := RemoveAt(awaiting, k);
    assert multiset(rest) + multiset{tab} == multiset(awaiting);
    if answered {
      var sent' := sent + [TabMessage(tab, InjectButtonAction)];
      assert multiset(sent') == multiset(sent) + multiset{TabMessage(tab, InjectButtonAction)};
      forall t
        ensures multiset(sent')[TabMessage(t, PingAction)] ==
          multiset(sent')[TabMessage(t, InjectButtonAction)] + multiset(rest)[t] + multiset(delayed)[t]
      {
        assert multiset(sent')[TabMessage(t, PingAction)] == multiset(sent)[TabMessage(t, PingAction)];
      }
    } else {
      var delayed' := delayed + [tab];
      assert multiset(delayed') == multiset(delayed) + multiset{tab};
      forall t
        ensures multiset(sent)[TabMessage(t, PingAction)] ==
          multiset(sent)[TabMessage(t, InjectButtonAction)] + multiset(rest)[t] + multiset(delayed')[t]
      {
        assert multiset(sent)[TabMessage(t, PingAction)] ==
          multiset(sent)[TabMessage(t, InjectButtonAction)] + multiset(awaiting)[t] + multiset(delayed)[t];
      }
    }
  }

  lemma RetryKeepsBalance(sent: seq<TabMessage>, awaiting: seq<int>, delayed: seq<int>, k: nat)
    requires Balanced(sent, awaiting, delayed) && k < |delayed|
    ensures Balanced(sent + [TabMessage(delayed[k], InjectButtonAction)], awaiting, RemoveAt(delayed, k))
  {
    var tab := delayed[k];
    var rest := RemoveAt(delayed, k);
    var sent' := sent + [TabMessage(tab, InjectButtonAction)];
    assert multiset(rest) + multiset{tab} == multiset(delayed);
    assert multiset(sent') == multiset(sent) + multiset{TabMessage(tab, InjectButtonAction)};
    forall t
      ensures multiset(sent')[TabMessage(t, PingAction)] ==
        multiset(sent')[TabMessage(t, InjectButtonAction)] + multiset(awaiting)[t] + multiset(rest)[t]
    {
      assert multiset(sent')[TabMessage(t, PingAction)] == multiset(sent)[TabMessage(t, PingAction)];
    }
  }

  /** Once nothing is pending, every tab has been sent as many inject requests as pings. */
  lemma SettledBalance(sent: seq<TabMessage>, t: int)
    requires Balanced(sent, [], [])
    ensures multiset(sent)[TabMessage(t, PingAction)] == multiset(sent)[TabMessage(t, InjectButtonAction)]
  {
  }
}
