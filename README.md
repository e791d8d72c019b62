# BreakMedium, modelled in Dafny

BreakMedium is a browser extension for Medium pages. Its content script puts a
"Break Medium" button into the page toolbar of premium articles and keeps it
there while the single-page application re-renders and navigates. A click
sends the browser to the article's address behind the `https://freedium.cfd/`
prefix. A background script writes default settings, answers messages and
probes Medium tabs. A popup redirects the active tab.

The project models these three scripts:

- `base.dfy`: `Option` for a JavaScript value that may be `undefined`,
  truthiness, and `RemoveAt` on sequences.
- `strings.dfy`: `String.prototype.includes`, both as the recursive `Contains`
  and as the existence of an occurrence.
- `urls.dfy`: the Medium domain test, the Freedium redirect address and its
  inverse, and the two home-feed addresses.
- `protocol.dfy`: stored settings, runtime messages and their replies.
- `dom.dfy`: the page as the content script sees it. It covers:
  - the host elements in document order;
  - the locator for the "Write" toolbar entry and its two fallbacks;
  - premium detection;
  - the child lists of containers, where the script's wrapper `div`s may hold
    the injected button.
- `content.dfy`: the content script. Every event it reacts to is a step
  function on a `State` value. The `Controller` class performs the same
  steps in place, and each method is proved equal to its step function. The
  invariant `Inv` holds in every reachable state:
  - at most one button is in the document;
  - every button came from one of the script's earlier creations;
  - every element's closest `div` is a container in the tree;
  - every retry session is within its 30 attempts.
- `background.dfy`: the background script. Its pure decisions are `Respond`,
  `InstallDefaults`, `ButtonEnabled` and `ShouldProbe`. The `Worker` class
  holds the storage and the ping/inject exchange with tabs. Its invariant is
  that every ping to a tab is matched by exactly one inject request, either
  already sent or still pending.
- `popup.dfy`: the popup's status line, its toggle button and the redirect of
  the active tab.
- `consistency.dfy`: how the scripts' separate decisions fit together.

The browser is modelled through parameters:

- Timers are pending entries that an event fires:
  - one per 300 ms removal, captured with the identity of its button;
  - one per 1500 ms settle delay;
  - one count of attempts per retry interval;
  - one per 1000 ms ping retry in the background.
- A mutation batch is `OnMutation`.
- A `history.pushState` call is `OnUrlChange`.
- The results of `chrome.storage`, `chrome.tabs` and `chrome.runtime` calls are
  inputs.
- Messages sent and tabs created or updated are recorded outputs.
- Re-rendering by the host page is `HostRender`. The host page never creates a
  second element with the button's id.

Behaviour of the code that the model keeps as written:

- `setupPersistentObserver` has no once-only guard.
  - `content.js` calls it from the success paths of the DOMContentLoaded and
    load handlers and from every `startContinuousInjection`.
  - Each call adds one more presence observer, one more URL tracker and one
    more `history.pushState` wrapper around the previous ones. Each entry of
    `lastUrls` stands for one such set.
  - A pushState therefore starts one settle timer per setup (`PushState`).
- Starting a retry session does not check for one already running. Both
  lifecycle handlers can start one, so `sessions` is a sequence.
- Turning the button off and on again within 300 ms leaves the old button in
  place. Its pending removal then detaches it while the setting is on
  (`ToggleRace`).
- An "injectButton" message while the button is disabled does nothing
  (`HandleReplies`). A direct inject call would instead start a removal
  (`InjectStep`).

## Model

| member | source | states |
|---|---|---|
| Strings.ContainsIffOccurs | popup.js:37-39 | `includes` holds exactly when the needle occurs at some position |
| Strings.ContainsAfterPrefix | popup.js:46-48 | putting a prefix in front of a string keeps every substring it had |
| Urls.SomeContainsIffExists | popup.js:37-39 | the `some` over the domain list holds exactly when some listed domain occurs in the URL |
| Urls.IsMediumUrl | popup.js:37-39 | a URL is a Medium URL exactly when it contains "medium.com" or "towardsdatascience.com" |
| Urls.FreediumUrl | popup.js:46-48 | the redirect address starts with the `https://freedium.cfd/` prefix, followed by the whole URL |
| Urls.StripRedirect | popup.js:14 | the inverse is defined exactly on addresses with the prefix, and removes exactly the prefix |
| Urls.StripAfterRedirect | popup.js:46-48 | stripping the prefix from a redirect address gives back the original URL |
| Urls.RedirectAfterStrip | popup.js:46-48 | every address with the prefix is the redirect address of what follows it |
| Urls.RedirectStaysMedium | popup.js:13-14 | the redirect address of a Medium URL is itself a Medium URL |
| Urls.HomepageIsMedium | content.js:427-431 | both home-feed addresses pass the domain test, so the homepage gate is a separate condition |
| Dom.FirstIndex | content.js:126-133 | the first index in document order whose element matches; none exactly when no element matches |
| Dom.TargetPrefersText | content.js:126-133 | the first element of `div, button, a, span` whose trimmed text is "Write" decides the target: its closest `div` |
| Dom.TargetFallbacks | content.js:137-149 | with no "Write" text, the first `aria-label="Write"` element decides; without those, the first `data-action="write"`; with none, there is no target |
| Dom.Target | content.js:121-152 | a target, when there is one, is the closest `div` of an element matching the "Write" text, the aria-label or the data-action query |
| Dom.FindTarget | content.js:121-152 | the search loop and its two fallbacks return the locator's target |
| Dom.IsPremium | content.js:158-177 | a page is premium exactly when it has a `div` member badge, or a `span`/`p` mentioning one of the two paywall phrases |
| Dom.InsertSecond | content.js:463-472 | the wrapper goes second when the target already has a child, and first otherwise; the other children keep their order |
| Dom.RemoveInserted | content.js:463-472 | taking the inserted wrapper out gives back the target's children as they were |
| Dom.InsertKeepsUnique | content.js:440-472 | inserting into a document without the button leaves exactly one button, the new one |
| Dom.PlacedGrows | content.js:463-471 | containers that only gain children keep every element inside its closest `div` |
| Dom.Detach | content.js:502-506 | detaching a button keeps every container and the length of every child list |
| Dom.DetachKeepsUnique | content.js:494-508 | detaching the captured button keeps at most one button; a button remains exactly when the present one was another |
| Dom.DetachKeepsBelow | content.js:502-506 | detaching brings no button the script has not created |
| Dom.Restyle | content.js:684-701 | restyling keeps every container and the length of every child list |
| Dom.RestyleKeepsButton | content.js:684-701 | restyling keeps the button present with the same identity and gives it the new theme |
| Dom.RestyleKeepsBelow | content.js:684-701 | restyling keeps every button's identity |
| Content.Decide | content.js:417-451 | the gates run in order: enabled, not the homepage, premium, absent, target found. Insertion happens exactly when all pass, and "already present" exactly when all but the last two pass and a button exists |
| Content.Removal | content.js:494-508 | with a button present, the removal starts one timer that captures that button; without one nothing changes. The page is unchanged for now and the invariant is kept |
| Content.InsertedKeepsInv | content.js:453-472 | an insertion into a page without the button keeps the invariant and makes the button present |
| Content.InjectStep | content.js:417-489 | the invariant is kept. An insertion sends "buttonInjected" exactly when the runtime is reachable, and no other message is sent; containers other than the target keep their children. The result is true exactly when the button was already there and every earlier gate passed, or when an insertion was made and the notification went out. When disabled, the result is false and a removal starts. The page changes only when every gate passed and a target was found. Afterwards the button is present exactly when it was before or insertion was due; settings, URL and observers are untouched |
| Content.InjectPlacesSecond | content.js:463-472 | the new wrapper with the new button lands in the second slot, and removing it restores the target's children |
| Content.WriteTargetGetsSecond | content.js:463-467 | a target found through the "Write" text has a first child, so the wrapper always lands second there |
| Content.InjectNeverDuplicates | content.js:440-443 | with the button present, inject leaves the page as it is, and leaves the whole state alone when enabled; it returns true when the earlier gates pass |
| Content.AbsentInjectSettles | content.js:417-489 | on a page without the button, one inject either makes the button present or changes nothing |
| Content.RemovalElapsed | content.js:502-506 | the fired timer is consumed and the invariant is kept |
| Content.Visibility | content.js:514-527 | the flag takes the new value and the invariant is kept |
| Content.Theme | content.js:684-701 | the theme flag takes the new value, the button's presence is unchanged, and a present button keeps its identity and takes the new theme |
| Content.Tick | content.js:545-553 | one interval firing keeps the invariant and makes one inject call: the result and the page are the inject call's. The session is cleared when that call succeeds or the count reaches 30; otherwise its count goes up by one |
| Content.Ticks | content.js:543-553 | the ticks a session runs, on the results its inject calls return: at most as many as there are results, and at least one |
| Content.TicksBounded | content.js:543-553 | a retry session never makes more than its 30 attempts |
| Content.TicksUntilSuccess | content.js:549-552 | a session stops at the tick of its first successful inject |
| Content.TicksWithoutSuccess | content.js:549-552 | when inject never succeeds, a session makes exactly its remaining attempts and then clears its interval |
| Content.RunSession | content.js:545-553 | the interval of the only session, fired through `Tick` until it is cleared; its own contract only bounds the results by the firings, and `SessionRunsTicks` states what it does |
| Content.SessionRunsTicks | content.js:545-553 | a session given its budget of firings makes exactly `Ticks` of them, on the results of its own inject calls, and is then cleared |
| Content.PresenceChecks | content.js:565-570 | the presence observers keep the invariant |
| Content.CountStale | content.js:592-596 | no tracker is stale exactly when every tracker's last URL is the current one |
| Content.UrlChecks | content.js:591-601 | afterwards every URL tracker records the current URL, and none is added or dropped. One settle timer starts per stale tracker, and nothing else changes |
| Content.UrlTrackerRecheck | content.js:591-601 | a URL change a tracker notices starts a settle timer, and the first to fire leaves the button present exactly when it was present or the new page passes every gate and has a target |
| Content.Observe | content.js:562-582 | a mutation batch keeps the invariant |
| Content.PushState | content.js:609-619 | a navigation starts one settle timer per history wrapper installed |
| Content.Recheck | content.js:613-618 | a settle timer keeps the invariant |
| Content.SelfHealing | content.js:565-570 | once armed, a body mutation on an eligible page with a target leaves the button present, whoever removed it |
| Content.ObserversSettle | content.js:565-570 | the observers' own insertion does not make them act again: a second batch leaves the page as it is |
| Content.NavigationRecheck | content.js:609-619 | after a pushState, the first settle timer leaves the button present exactly when it was present or the new page passes every gate and has a target |
| Content.SettingsLoaded | content.js:54-68 | only the two flags change; the stored theme wins, else the system preference |
| Content.DomContentLoaded | content.js:709-717 | the page is what one inject call leaves, the invariant is kept and exactly one more set of observers is armed; a retry session starts exactly when the inject call fails |
| Content.WindowLoad | content.js:720-733 | with the button present only the observers are armed; otherwise the page is what one inject call leaves. The invariant is kept and exactly one more set of observers is armed; a retry session starts exactly when the button is absent and the inject call fails |
| Content.Handle | content.js:665-706 | the invariant is kept; an action without a reply changes nothing |
| Content.HandleReplies | content.js:665-706 | exactly the five known actions get replies. A ping gets "alive" and changes nothing; the redirect query changes nothing; "injectButton", visibility and theme reply success, and the redirect query replies "Redirecting to: " and the page's redirect address. "injectButton" injects when enabled and does nothing while disabled; visibility and theme perform `Visibility` and `Theme` |
| Content.SettingReversal | content.js:514-527 | turning the setting off removes the shown button when the timer fires, and turning it on again puts a button back without a reload |
| Content.ToggleRace | content.js:502-527 | off then on within 300 ms keeps the old button, and the pending removal then leaves an enabled page without a button |
| Content.Click | content.js:211-233 | a click leads to the redirect address of the page, in a new tab exactly when `openInNewTab` is true |
| Content.Controller.constructor | content.js:50-51 | the script starts enabled in the light theme, with nothing armed, on a page without the button |
| Content.Controller.Remove | content.js:494-508 | the in-place removal is `Removal` |
| Content.Controller.Inject | content.js:417-489 | the in-place inject returns and leaves what `InjectStep` says |
| Content.Controller.Gates | content.js:420-450 | the checks, made in their order up to the target search, give the same gate as `Decide` and change nothing |
| Content.Controller.InsertButton | content.js:453-483 | creates the next button, inserts it, and notifies the background unless the runtime call throws; it returns whether the notification went out |
| Content.Controller.UpdateVisibility | content.js:514-527 | performs `Visibility` |
| Content.Controller.HandleMessage | content.js:665-706 | replies and changes state as `Handle` says |
| Content.Controller.RetryTick | content.js:545-553 | performs `Tick`: counts the attempt, then clears or keeps the interval |
| Content.Controller.SetupPersistentObserver | content.js:562-582 | arms one more set of observers, without a once-only guard |
| Content.Controller.StartContinuousInjection | content.js:540-557 | starts one more session with no attempts, then arms the observers |
| Content.Controller.OnMutation | content.js:565-601 | performs `Observe` |
| Content.Controller.RunPresenceObservers | content.js:565-570 | each presence observer, in turn, reinjects a missing button |
| Content.Controller.RunUrlTrackers | content.js:591-601 | each URL tracker that saw another URL records the new one and starts a settle timer |
| Content.Controller.OnUrlChange | content.js:609-619 | performs `PushState` |
| Content.Controller.OnSettleElapsed | content.js:613-618 | performs `Recheck` |
| Content.Controller.OnRemovalElapsed | content.js:502-506 | performs `RemovalElapsed` |
| Content.Controller.OnSettingsLoaded | content.js:54-68 | performs `SettingsLoaded` |
| Content.Controller.OnDomContentLoaded | content.js:709-717 | performs `DomContentLoaded` |
| Content.Controller.OnWindowLoad | content.js:720-733 | performs `WindowLoad` |
| Content.Controller.HostRender | content.js:565-581 | a host re-render replaces the page. It never adds a second button or a button the script did not create, and the invariant is kept |
| Content.Controller.InvalidateContext | content.js:482-487 | after an extension reload, later runtime calls fail and nothing else changes |
| Background.InstallDefaults | background.js:14-26 | defaults are written exactly when no settings are stored: enabled, with both tab and button options on; stored settings are never overwritten |
| Background.InstallIdempotent | background.js:16-26 | installing twice is installing once |
| Background.IsMediumSite | background.js:98 | the inline domain test is the popup's `isMediumUrl` |
| Background.ShouldProbe | background.js:97-100 | the handler goes on exactly for a completed load of a non-empty Medium URL |
| Background.ButtonEnabled | background.js:110-111 | the button is off exactly when the stored settings say `enableButton: false` |
| Background.Respond | background.js:53-91 | exactly the three known actions keep the channel open. "buttonInjected" replies success. A settings read or tab creation replies its result, or the runtime's error when there is one. An unknown action replies "Unknown action", and an unreadable request replies "Internal error occurred" |
| Background.Worker.constructor | background.js:7-14 | starts with the given storage and nothing sent |
| Background.Worker.OnInstalled | background.js:7-34 | performs `InstallDefaults` on the storage and nothing else |
| Background.Worker.HandleMessage | background.js:53-91 | replies `Respond` and opens a tab only for a successful openInNewTab |
| Background.Worker.OnTabUpdated | background.js:96-143 | pings the tab exactly when the load is complete on a Medium URL, the settings read succeeded and the button is enabled; otherwise sends nothing |
| Background.Worker.OnPingAnswered | background.js:115-136 | an answered ping is followed at once by one inject request; an unanswered one starts a single retry timer |
| Background.Worker.InjectAfterPing | background.js:127-135 | the inject request follows an answered ping |
| Background.Worker.DelayAfterPing | background.js:116-126 | a failed ping starts its tab's retry timer |
| Background.Worker.OnRetryElapsed | background.js:119-126 | the retry sends one inject request and is not retried further |
| Background.SendKeepsProtocol | background.js:115-129 | only pings and inject requests are ever sent |
| Background.PingKeepsBalance | background.js:115 | a new ping leaves every tab's pings matched by inject requests, sent or pending |
| Background.AnswerKeepsBalance | background.js:115-136 | the answer to a ping keeps the matching |
| Background.RetryKeepsBalance | background.js:119-126 | the retry keeps the matching |
| Background.SettledBalance | background.js:115-136 | with nothing pending, every tab has had as many inject requests as pings |
| Popup.StatusColor | popup.js:15-19 | the error type is red, and success and processing share the green |
| Popup.Redirect | popup.js:56-70 | a tab update happens exactly when the first active tab has a Medium URL, and goes to that tab at its redirect address |
| Popup.RedirectRecoversPage | popup.js:59-62 | the new address strips back to the page the tab showed |
| Popup.View.UpdateStatus | popup.js:27-30 | sets the text to the message and the colour to that of the type, which defaults to processing |
| Popup.View.RedirectToFreedium | popup.js:53-71 | updates a Medium tab, shows "Redirecting to Freedium..." in the success colour and requests a notification. Otherwise shows "This is not a Medium article." in the error colour. With no readable tab it stays at "Processing..." |
| Popup.View.OnButtonClick | popup.js:130-133 | toggles the button's `active` class, then redirects |
| Consistency.ProbedPagesRedirect | background.js:97-100 | every page the background probes is one the popup would redirect |
| Consistency.EnableFlagsAgree | content.js:55-58 | starting from its initial `true`, the content script loads the same enable flag as the background's decision |
| Consistency.FreshInstall | background.js:16-26 | after a first install the button is enabled and a click opens a new tab |
| Consistency.HomepageProbedNotInjected | content.js:427-431 | the background pings a home-feed tab like any Medium page, and the content gate leaves that page unchanged |

## Left out

- Styling, animation, ripples and hover effects are not modelled: `injectAnimationStyles`, the style parts of `createButton`, `createMultipleRipples` and `createRippleAt`. They are presentation code built on random numbers, floating-point geometry and timers.
- The theme's CSS is not modelled. The button records the theme it was styled for, which is all `updateTheme` changes.
- Responsive media-query code is not modelled: `addMediaQueryListener`, `setupResponsiveButtonStyles`, the popup's `setupResponsiveLayout` and `checkForDeprecatedAPIs`. It is browser plumbing with no decision in it.
- Logging is left out, and so is `console` output in general.
- The popup's notification request is counted. Its contents are not modelled, and neither is its error callback, which only logs.
- The 10 ms animation timer after an injection is left out; it only changes styles.
- The 100 ms delay before a click navigates is left out. `Click` is the navigation that follows it.
- The DOM is abstracted. The tree is the child lists of the containers the script can insert into. A `HostNode` stands for any child node, text nodes included. The host page's elements are a snapshot: tag, trimmed text, attributes, and the closest `div`.
  - What a host child node is, the attributes of the inserted nodes, and the document's other structure are not modelled.
  - The host changes the page only through `HostRender`, which never adds a second element with the button's id.
- Try/catch blocks around the locator and premium queries are not modelled. Over the modelled elements those queries cannot throw. Inside inject, only the final `chrome.runtime.sendMessage` is modelled as failing (`contextValid`).
- MutationObserver records are not modelled. A batch is modelled by whether it touched the body subtree and whether it changed child lists.
- The browser notifies observers in the order they were created, alternating presence observers and URL trackers. The model runs all presence observers first. This gives the same result: presence observers touch only the page and their inject calls, and URL trackers touch only their own URLs and the settle timers.
- A stored setting that is `null` is not modelled. `None` is `undefined`, where both scripts use their defaults.
- Scheduling between callbacks is not modelled: the order in which timers and events fire is the caller's choice of method.
- The content script's message listener always returns true. That is not modelled, since it only keeps the reply channel open.
- Background.Worker.OnTabUpdated reads the settings when the event arrives. The source reads them when its storage callback runs; an install or write in between is not interleaved.
- The background's failure replies use the runtime's error message as given. Errors are strings, not `Error` objects.
