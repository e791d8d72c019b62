/**
 * The content script: the injection controller that runs in every Medium page.
 *
 * Its module-level flags, the page it sees and the timers and observers it
 * has armed are one `State`. Every event the script reacts to is a step
 * function on `State`, and the `Controller` class performs the same steps in
 * place, each method proved equal to its step function.
 */
module Content {
  import opened Base
  import opened Urls
  import opened Protocol
  import opened Dom

  /** The id the injected button carries; `AnyButton` is `getElementById` on it. */
  const ButtonId := "break-medium-button"
  /** Ticks a retry session makes at most. */
  const MaxAttempts: nat := 30
  /** Period of the retry interval and the settle delay after a navigation, in ms. */
  const InjectionIntervalMs: nat := 1500
  const UrlChangeDelayMs: nat := 1500
  /** Delay of the deferred removal, in ms. */
  const RemovalDelayMs: nat := 300

  datatype State = State(
    enabled: bool,               // isButtonEnabled
    darkMode: bool,              // isDarkMode
    url: string,                 // location.href
    elements: seq<Element>,      // the host page's elements, in document order
    tree: Tree,                  // the child lists of the document's containers
    contextValid: bool,          // false once chrome.runtime calls throw
    outbox: seq<Message>,        // messages sent with chrome.runtime.sendMessage
    nextGeneration: nat,         // identity of the next button created
    pendingRemovals: seq<nat>,   // running 300 ms removal timers, by button identity
    sessions: seq<nat>,          // running retry intervals, by attempts made
    lastUrls: seq<string>,       // one URL tracker (and observer, and history hook) per setup
    pendingRechecks: nat)        // running settle-delay timers

  /**
   * The page as the script and the host leave it: at most one button, every
   * button created by the script earlier, and the elements in their containers.
   */
  ghost predicate PageInv(elements: seq<Element>, tree: Tree, nextGeneration: nat) {
    AtMostOneButton(tree) && ButtonsBelow(tree, nextGeneration) && WellPlaced(elements, tree)
  }

  /** Every reachable state: a consistent page, and every running session under its budget. */
  ghost predicate Inv(s: State) {
    PageInv(s.elements, s.tree, s.nextGeneration) &&
    forall k :: 0 <= k < |s.sessions| ==> s.sessions[k] < MaxAttempts
  }

  predicate Present(s: State) {
    AnyButton(s.tree)
  }

  // ---------------------------------------------------------------------------
  // injectButtonToSelector

  /** The outcome of the ordered gates of one inject call. */
  datatype Gate = Disabled | Homepage | NotPremium | AlreadyPresent | NoTarget | Insert(target: NodeId)

  function Decide(enabled: bool, url: string, elements: seq<Element>, present: bool): (g: Gate)
    ensures g.Insert? <==>
      enabled && !IsHomepage(url) && IsPremium(elements) && !present && Target(elements).Some?
    ensures g.Insert? ==> Target(elements) == Some(g.target)
    ensures g == AlreadyPresent <==> enabled && !IsHomepage(url) && IsPremium(elements) && present
  {
    if !enabled then Disabled
    else if IsHomepage(url) then Homepage
    else if !IsPremium(elements) then NotPremium
    else if present then AlreadyPresent
    else
      match Target(elements)
      case None => NoTarget
      case Some(t) => Insert(t)
  }

  function GateOf(s: State): Gate {
    Decide(s.enabled, s.url, s.elements, Present(s))
  }

  /** removeExistingButton: a 300 ms timer is started for the button present, if any. */
  ghost function Removal(s: State): (r: State)
    ensures r.tree == s.tree
    ensures Inv(s) ==> Inv(r)
    ensures Inv(s) && Present(s) ==> r.pendingRemovals == s.pendingRemovals + [ButtonOf(s.tree).generation]
    ensures !Present(s) ==> r == s
  {
    if Present(s) then s.(pendingRemovals := s.pendingRemovals + [ButtonOf(s.tree).generation]) else s
  }

  /** The button `Insert` creates: the next identity, styled for the current theme. */
  function NewButton(s: State): BreakButton {
    BreakButton(s.nextGeneration, s.darkMode)
  }

  /**
   * The insertion and what follows it: the notification to the background
   * script is sent when the runtime is reachable; otherwise the send throws
   * after the wrapper is already in the page.
   */
  function Inserted(s: State, target: NodeId): State {
    s.(tree := InsertInto(s.tree, target, Wrapper(Some(NewButton(s)))),
       nextGeneration := s.nextGeneration + 1,
       outbox := if s.contextValid then s.outbox + [Plain(ButtonInjectedAction)] else s.outbox)
  }

  /** An insertion into a page without the button keeps the invariant, and the new button is the one present. */
  lemma InsertedKeepsInv(s: State, target: NodeId)
    ensures Inv(s) && !Present(s) ==> Inv(Inserted(s, target)) && Present(Inserted(s, target))
  {
    if Inv(s) && !Present(s) {
      var w := Wrapper(Some(NewButton(s)));
      InsertKeepsUnique(s.tree, target, w);
      PlacedGrows(s.elements, s.tree, InsertInto(s.tree, target, w));
    }
  }

  /** One call of injectButtonToSelector: its result and the state after it. */
  ghost function InjectStep(s: State): (r: (bool, State))
    ensures Inv(s) ==> Inv(r.1)
    ensures r.0 ==> s.enabled && !IsHomepage(s.url) && IsPremium(s.elements) && Present(r.1)
    ensures r.1.tree != s.tree ==>
      s.enabled && !IsHomepage(s.url) && IsPremium(s.elements) && !Present(s) && Target(s.elements).Some?
    ensures Inv(s) ==> (Present(r.1) <==> Present(s) || GateOf(s).Insert?)
    ensures Inv(s) ==> (r.0 <==> GateOf(s) == AlreadyPresent || (GateOf(s).Insert? && s.contextValid))
    ensures !s.enabled ==> r == (false, Removal(s))
    ensures r.1.enabled == s.enabled && r.1.url == s.url && r.1.elements == s.elements
    ensures r.1.sessions == s.sessions && r.1.lastUrls == s.lastUrls
    ensures r.1.pendingRechecks == s.pendingRechecks && r.1.darkMode == s.darkMode
    ensures r.1.contextValid == s.contextValid
    ensures r.1.outbox == s.outbox + (if GateOf(s).Insert? && s.contextValid then [Plain(ButtonInjectedAction)] else [])
    ensures GateOf(s).Insert? ==>
      forall c :: c in s.tree && c != GateOf(s).target ==> c in r.1.tree && r.1.tree[c] == s.tree[c]
  {
    match GateOf(s)
    case Disabled => (false, Removal(s))
    case Insert(t) =>
      InsertedKeepsInv(s, t);
      (s.contextValid, Inserted(s, t))
    case AlreadyPresent => (true, s)
    case _ => (false, s)
  }

  /**
   * Position contract: the wrapper with the new button lands second in the
   * target's child list (first when the list was empty), and taking it out
   * again gives back the children in their old order.
   */
  lemma InjectPlacesSecond(s: State)
    requires GateOf(s).Insert?
    ensures var t := GateOf(s).target;
            var before := ChildrenOf(s.tree, t);
            var after := InjectStep(s).1.tree[t];
            after[SecondSlot(|before|)] == Wrapper(Some(NewButton(s))) &&
            RemoveAt(after, SecondSlot(|before|)) == before
  {
    var t := GateOf(s).target;
    assert InjectStep(s).1 == Inserted(s, t);
    RemoveInserted(ChildrenOf(s.tree, t), Wrapper(Some(NewButton(s))));
  }

  /**
   * A target found through a "Write" element contains that element, so the
   * wrapper goes second there, after the container's first child node.
   */
  lemma WriteTargetGetsSecond(s: State)
    requires Inv(s) && GateOf(s).Insert? && FirstIndex(s.elements, IsWriteText).Some?
    ensures var t := GateOf(s).target;
            |ChildrenOf(s.tree, t)| >= 1 && InjectStep(s).1.tree[t][1] == Wrapper(Some(NewButton(s)))
  {
    var i := FirstIndex(s.elements, IsWriteText).value;
    assert s.elements[i].closestDiv == Some(GateOf(s).target);
    InjectPlacesSecond(s);
  }

  /** With the button already in the page, inject leaves the page as it is and never adds a second one. */
  lemma InjectNeverDuplicates(s: State)
    requires Present(s)
    ensures InjectStep(s).1.tree == s.tree
    ensures s.enabled ==> InjectStep(s).1 == s
    ensures s.enabled && !IsHomepage(s.url) && IsPremium(s.elements) ==> InjectStep(s).0
  {
  }

  /**
   * An inject call on a page without the button either makes it present or
   * changes nothing, so calling inject again straight away changes nothing more.
   */
  lemma AbsentInjectSettles(s: State)
    requires !Present(s)
    ensures Present(InjectStep(s).1) || InjectStep(s).1 == s
  {
    match GateOf(s)
    case Insert(t) =>
      InsertKeepsUnique(s.tree, t, Wrapper(Some(NewButton(s))));
    case Disabled =>
      assert InjectStep(s).1 == Removal(s) == s;
    case _ =>
  }

  // ---------------------------------------------------------------------------
  // Removal, visibility, theme

  /** The removal timer `k` fires: that button, if still attached, leaves its wrapper. */
  ghost function RemovalElapsed(s: State, k: nat): (r: State)
    requires k < |s.pendingRemovals|
    ensures Inv(s) ==> Inv(r)
    ensures |r.pendingRemovals| == |s.pendingRemovals| - 1
  {
    DetachKeepsUnique(s.tree, s.pendingRemovals[k]);
    DetachKeepsBelow(s.tree, s.pendingRemovals[k], s.nextGeneration);
    PlacedGrows(s.elements, s.tree, Detach(s.tree, s.pendingRemovals[k]));
    s.(tree := Detach(s.tree, s.pendingRemovals[k]),
       pendingRemovals := RemoveAt(s.pendingRemovals, k))
  }

  /** updateButtonVisibility(e). */
  ghost function Visibility(s: State, e: bool): (r: State)
    ensures Inv(s) ==> Inv(r)
    ensures r.enabled == e
  {
    var s' := s.(enabled := e);
    if e then
      if Present(s') then s' else InjectStep(s').1
    else
      Removal(s')
  }

  /** The updateTheme message: the flag, and the existing button restyled in place. */
  ghost function Theme(s: State, dark: bool): (r: State)
    ensures Inv(s) ==> Inv(r)
    ensures r.darkMode == dark
    ensures Present(r) <==> Present(s)
    ensures Inv(s) && Present(s) ==> ButtonOf(r.tree) == ButtonOf(s.tree).(dark := dark)
  {
    RestyleKeepsButton(s.tree, dark);
    RestyleKeepsBelow(s.tree, dark, s.nextGeneration);
    PlacedGrows(s.elements, s.tree, Restyle(s.tree, dark));
    s.(darkMode := dark, tree := Restyle(s.tree, dark))
  }

  // ---------------------------------------------------------------------------
  // Retry sessions (startContinuousInjection)

  /** The interval is cleared at a tick whose inject succeeded or that used up the budget. */
  predicate Clears(attempts: nat, injected: bool) {
    injected || attempts >= MaxAttempts
  }

  /** The interval of session `k` fires: one more attempt, then clear or keep counting. */
  ghost function Tick(s: State, k: nat): (r: (bool, State))
    requires k < |s.sessions|
    ensures Inv(s) ==> Inv(r.1)
    ensures r.0 == InjectStep(s).0
    ensures Clears(s.sessions[k] + 1, r.0) ==> r.1.sessions == RemoveAt(s.sessions, k)
    ensures !Clears(s.sessions[k] + 1, r.0) ==> r.1.sessions == s.sessions[k := s.sessions[k] + 1]
    ensures r.1 == InjectStep(s).1.(sessions := r.1.sessions)
  {
    var attempts := s.sessions[k] + 1;
    var (ok, s1) := InjectStep(s);
    var sessions := if Clears(attempts, ok) then RemoveAt(s.sessions, k) else s.sessions[k := attempts];
    (ok, s1.(sessions := sessions))
  }

  /**
   * How many ticks a session that has made `made` attempts still runs, when
   * its successive inject calls return `results`: it stops at the first tick
   * that clears it (or when `results` runs out).
   */
  function Ticks(made: nat, results: seq<bool>): (n: nat)
    requires made < MaxAttempts
    ensures n <= |results|
    ensures |results| > 0 ==> n >= 1
    decreases |results|
  {
    if |results| == 0 then 0
    else if Clears(made + 1, results[0]) then 1
    else 1 + Ticks(made + 1, results[1..])
  }

  /** A session never makes more than its budget of attempts. */
  lemma {:induction false} TicksBounded(made: nat, results: seq<bool>)
    requires made < MaxAttempts
    ensures Ticks(made, results) <= MaxAttempts - made
    decreases |results|
  {
    if |results| > 0 && !Clears(made + 1, results[0]) {
      TicksBounded(made + 1, results[1..]);
    }
  }

  /** A session stops at the tick of the first successful inject. */
  lemma {:induction false} TicksUntilSuccess(made: nat, results: seq<bool>, i: nat)
    requires made < MaxAttempts && made + i < MaxAttempts
    requires i < |results| && results[i]
    requires forall j :: 0 <= j < i ==> !results[j]
    ensures Ticks(made, results) == i + 1
    decreases i
  {
    if i > 0 {
      assert !results[0];
      TicksUntilSuccess(made + 1, results[1..], i - 1);
    }
  }

  /** When inject never succeeds, a session makes exactly its remaining budget of attempts, then stops. */
  lemma {:induction false} TicksWithoutSuccess(made: nat, results: seq<bool>)
    requires made < MaxAttempts
    requires |results| >= MaxAttempts - made
    requires forall j :: 0 <= j < |results| ==> !results[j]
    ensures Ticks(made, results) == MaxAttempts - made
    decreases MaxAttempts - made
  {
    if !Clears(made + 1, results[0]) {
      TicksWithoutSuccess(made + 1, results[1..]);
    }
  }

  /**
   * Up to `n` firings of the interval of the only running session, stopping
   * once it is cleared: the inject results of the ticks made and the state after them.
   */
  ghost function RunSession(s: State, n: nat): (r: (seq<bool>, State))
    requires |s.sessions| <= 1
    ensures |r.0| <= n
    decreases n
  {
    if n == 0 || |s.sessions| == 0 then ([], s)
    else
      var (ok, s1) := Tick(s, 0);
      var (rest, s2) := RunSession(s1, n - 1);
      ([ok] + rest, s2)
  }

  /**
   * A session with `made` attempts behind it, given its full budget of
   * firings, makes exactly `Ticks` of them on the results its inject calls
   * return, and has then cleared its interval.
   */
  lemma {:induction false} SessionRunsTicks(s: State, made: nat, n: nat)
    requires s.sessions == [made] && made < MaxAttempts && n >= MaxAttempts - made
    ensures var (results, s') := RunSession(s, n);
            |results| == Ticks(made, results) && s'.sessions == []
    decreases n
  {
    var (ok, s1) := Tick(s, 0);
    if !Clears(made + 1, ok) {
      SessionRunsTicks(s1, made + 1, n - 1);
      var (rest, s2) := RunSession(s1, n - 1);
      assert ([ok] + rest)[1..] == rest;
    }
  }

  // ---------------------------------------------------------------------------
  // Observers and navigation (setupPersistentObserver, monitorURLChanges)

  /** setupPersistentObserver: one more presence observer, URL tracker and history hook. */
  function Setup(s: State): State {
    s.(lastUrls := s.lastUrls + [s.url])
  }

  /** startContinuousInjection: a new session with no attempts, then the observers. */
  function StartRetrying(s: State): State {
    Setup(s.(sessions := s.sessions + [0]))
  }

  /** The number of trackers whose last URL differs from `url`. */
  function CountStale(lastUrls: seq<string>, url: string): (n: nat)
    ensures n <= |lastUrls|
    ensures n == 0 <==> forall j :: 0 <= j < |lastUrls| ==> lastUrls[j] == url
  {
    if |lastUrls| == 0 then 0
    else CountStale(lastUrls[..|lastUrls| - 1], url) + (if lastUrls[|lastUrls| - 1] != url then 1 else 0)
  }

  /** The presence observers after a batch of mutations inside the body. */
  ghost function PresenceChecks(s: State): (r: State)
    ensures Inv(s) ==> Inv(r)
  {
    if |s.lastUrls| > 0 && !Present(s) then InjectStep(s).1 else s
  }

  /** The URL trackers after a batch of child-list mutations: each stale one records the URL and starts a settle timer. */
  function UrlChecks(s: State): (r: State)
    ensures |r.lastUrls| == |s.lastUrls|
    ensures forall j :: 0 <= j < |r.lastUrls| ==> r.lastUrls[j] == s.url
    ensures r.pendingRechecks == s.pendingRechecks + CountStale(s.lastUrls, s.url)
    ensures r == s.(lastUrls := r.lastUrls, pendingRechecks := r.pendingRechecks)
  {
    s.(lastUrls := seq(|s.lastUrls|, _ => s.url),
       pendingRechecks := s.pendingRechecks + CountStale(s.lastUrls, s.url))
  }

  /** One batch of mutation notifications: in the body (presence observers) and/or of child lists (URL trackers). */
  ghost function Observe(s: State, inBody: bool, childList: bool): (r: State)
    ensures Inv(s) ==> Inv(r)
  {
    var s1 := if inBody then PresenceChecks(s) else s;
    if childList then UrlChecks(s1) else s1
  }

  /** The wrapped history.pushState: the navigation, then one settle timer per installed hook. */
  function PushState(s: State, url: string): (r: State)
    ensures r.pendingRechecks == s.pendingRechecks + |s.lastUrls|
  {
    s.(url := url, pendingRechecks := s.pendingRechecks + |s.lastUrls|)
  }

  /** A settle timer fires: inject once if the button is missing. */
  ghost function Recheck(s: State): (r: State)
    requires s.pendingRechecks > 0
    ensures Inv(s) ==> Inv(r)
  {
    var s' := s.(pendingRechecks := s.pendingRechecks - 1);
    if Present(s') then s' else InjectStep(s').1
  }

  /**
   * Self-healing: once a presence observer is armed, a batch of body
   * mutations on an eligible page leaves the button present, whoever removed it.
   */
  lemma SelfHealing(s: State, childList: bool)
    requires Inv(s) && |s.lastUrls| > 0
    requires s.enabled && !IsHomepage(s.url) && IsPremium(s.elements) && Target(s.elements).Some?
    ensures Present(Observe(s, true, childList))
  {
  }

  /** The observers' own injection does not make them act again: a second batch leaves the page as it is. */
  lemma ObserversSettle(s: State)
    requires Inv(s)
    ensures Observe(Observe(s, true, false), true, false).tree == Observe(s, true, false).tree
  {
    if |s.lastUrls| > 0 && !Present(s) {
      AbsentInjectSettles(s);
    }
  }

  /**
   * Navigation recheck: after a pushState with hooks installed, the first
   * settle timer injects exactly when the new page passes every gate and has a
   * target; a button that was there stays.
   */
  lemma NavigationRecheck(s: State, url: string)
    requires Inv(s) && |s.lastUrls| > 0
    ensures PushState(s, url).pendingRechecks > 0
    ensures Present(Recheck(PushState(s, url))) <==>
      Present(s) || (s.enabled && !IsHomepage(url) && IsPremium(s.elements) && Target(s.elements).Some?)
  {
  }

  /**
   * A URL change that a tracker notices in a child-list batch, rather than
   * through pushState, starts a settle timer; the first one to fire injects
   * exactly when the new page passes every gate and has a target.
   */
  lemma UrlTrackerRecheck(s: State, url: string)
    requires Inv(s) && |s.lastUrls| > 0 && s.lastUrls[0] != url
    ensures Observe(s.(url := url), false, true).pendingRechecks > s.pendingRechecks
    ensures Present(Recheck(Observe(s.(url := url), false, true))) <==>
      Present(s) || (s.enabled && !IsHomepage(url) && IsPremium(s.elements) && Target(s.elements).Some?)
  {
  }

  // ---------------------------------------------------------------------------
  // Settings, page lifecycle, messages, clicks

  /** The settings-load callback: stored values win, else the flag keeps its value and the theme follows the system. */
  function SettingsLoaded(s: State, stored: Storage, systemDark: bool): (r: State)
    ensures r == s.(enabled := r.enabled, darkMode := r.darkMode)
    ensures stored.darkMode.Some? ==> r.darkMode == stored.darkMode.value
    ensures stored.darkMode.None? ==> r.darkMode == systemDark
  {
    var enabled :=
      if stored.settings.Some? && stored.settings.value.enableButton.Some?
      then stored.settings.value.enableButton.value else s.enabled;
    s.(enabled := enabled, darkMode := stored.darkMode.GetOr(systemDark))
  }

  /** The DOMContentLoaded handler. */
  ghost function DomContentLoaded(s: State): (r: State)
    ensures Inv(s) ==> Inv(r)
    ensures |r.lastUrls| == |s.lastUrls| + 1
    ensures r.sessions == s.sessions + (if InjectStep(s).0 then [] else [0])
    ensures r == InjectStep(s).1.(sessions := r.sessions, lastUrls := s.lastUrls + [s.url])
  {
    var (ok, s1) := InjectStep(s);
    if !ok then StartRetrying(s1) else Setup(s1)
  }

  /** The window load handler. */
  ghost function WindowLoad(s: State): (r: State)
    ensures Inv(s) ==> Inv(r)
    ensures |r.lastUrls| == |s.lastUrls| + 1
    ensures r.sessions == s.sessions + (if Present(s) || InjectStep(s).0 then [] else [0])
    ensures Present(s) ==> r == s.(lastUrls := s.lastUrls + [s.url])
    ensures !Present(s) ==> r == InjectStep(s).1.(sessions := r.sessions, lastUrls := s.lastUrls + [s.url])
  {
    if !Present(s) then
      var (ok, s1) := InjectStep(s);
      if !ok then StartRetrying(s1) else Setup(s1)
    else
      Setup(s)
  }

  /** The runtime.onMessage listener: the reply (none for an unknown action) and the new state. */
  ghost function Handle(s: State, m: Message): (r: (Option<Response>, State))
    ensures Inv(s) ==> Inv(r.1)
    ensures r.0.None? ==> r.1 == s
  {
    if m.action == PingAction then (Some(Alive), s)
    else if m.action == PerformAction then
      (Some(StatusText("Redirecting to: " + FreediumUrl(s.url))), s)
    else if m.action == InjectButtonAction then
      (Some(Success), if s.enabled then InjectStep(s).1 else s)
    else if m.action == VisibilityAction then (Some(Success), Visibility(s, Truthy(m.isEnabled)))
    else if m.action == ThemeAction then (Some(Success), Theme(s, Truthy(m.darkMode)))
    else (None, s)
  }

  /**
   * Every action the listener knows gets a reply and no other does; a ping and
   * a redirect query leave the state alone; injectButton while disabled does
   * nothing at all (a direct inject call would start a removal timer).
   */
  lemma HandleReplies(s: State, m: Message)
    ensures Handle(s, m).0.Some? <==>
      m.action in {PingAction, PerformAction, InjectButtonAction, VisibilityAction, ThemeAction}
    ensures m.action == PingAction ==> Handle(s, m) == (Some(Alive), s)
    ensures m.action == PerformAction ==> Handle(s, m).1 == s
    ensures m.action == InjectButtonAction ==> Handle(s, m).0 == Some(Success)
    ensures m.action == InjectButtonAction && !s.enabled ==> Handle(s, m).1 == s
    ensures m.action in {InjectButtonAction, VisibilityAction, ThemeAction} ==> Handle(s, m).0 == Some(Success)
    ensures m.action == PerformAction ==> Handle(s, m).0 == Some(StatusText("Redirecting to: " + FreediumUrl(s.url)))
    ensures m.action == InjectButtonAction && s.enabled ==> Handle(s, m).1 == InjectStep(s).1
    ensures m.action == VisibilityAction ==> Handle(s, m).1 == Visibility(s, Truthy(m.isEnabled))
    ensures m.action == ThemeAction ==> Handle(s, m).1 == Theme(s, Truthy(m.darkMode))
  {
  }

  /**
   * Setting reversal: turning the button off while it is shown removes it once
   * the removal timer fires, and turning it back on then injects it again
   * without a reload, on a page that still passes the gates.
   */
  lemma SettingReversal(s: State)
    requires Inv(s) && Present(s)
    requires !IsHomepage(s.url) && IsPremium(s.elements) && Target(s.elements).Some?
    ensures var off := Visibility(s, false);
            |off.pendingRemovals| > 0 &&
            var gone := RemovalElapsed(off, |off.pendingRemovals| - 1);
            !Present(gone) && Present(off) && Present(Visibility(gone, true))
  {
    var off := Visibility(s, false);
    assert off.pendingRemovals == s.pendingRemovals + [ButtonOf(s.tree).generation];
    DetachKeepsUnique(s.tree, ButtonOf(s.tree).generation);
  }

  /**
   * Turning the button off and on again before the 300 ms timer fires keeps
   * the old button (it is still present, so nothing is injected); when the
   * timer fires the page is left without a button although the setting is on,
   * until an observer or timer injects again.
   */
  lemma ToggleRace(s: State)
    requires Inv(s) && Present(s)
    ensures var flick := Visibility(Visibility(s, false), true);
            Present(flick) && |flick.pendingRemovals| > 0 &&
            var fired := RemovalElapsed(flick, |flick.pendingRemovals| - 1);
            fired.enabled && !Present(fired)
  {
    var flick := Visibility(Visibility(s, false), true);
    assert flick.pendingRemovals == s.pendingRemovals + [ButtonOf(s.tree).generation];
    DetachKeepsUnique(s.tree, ButtonOf(s.tree).generation);
  }

  /** Where the button's click handler sends the browser. */
  datatype Navigation = OpenTab(url: string) | SameTab(url: string)

  /**
   * The click handler: always the redirect address of the page it was made
   * on, in a new tab exactly when the setting says so.
   */
  function Click(url: string, stored: Storage): (r: Navigation)
    ensures StripRedirect(r.url) == Some(url)
    ensures r.OpenTab? <==> stored.settings.Some? && stored.settings.value.openInNewTab == Some(true)
  {
    StripAfterRedirect(url);
    var target := FreediumUrl(url);
    if stored.settings.Some? && Truthy(stored.settings.value.openInNewTab) then OpenTab(target)
    else SameTab(target)
  }

  // ---------------------------------------------------------------------------
  // The controller, performing the steps in place

  class Controller {
    var enabled: bool
    var darkMode: bool
    var url: string
    var elements: seq<Element>
    var tree: Tree
    var contextValid: bool
    var outbox: seq<Message>
    var nextGeneration: nat
    var pendingRemovals: seq<nat>
    var sessions: seq<nat>
    var lastUrls: seq<string>
    var pendingRechecks: nat

    function Snapshot(): State
      reads this
    {
      State(enabled, darkMode, url, elements, tree, contextValid, outbox, nextGeneration,
            pendingRemovals, sessions, lastUrls, pendingRechecks)
    }

    ghost predicate Valid()
      reads this
    {
      Inv(Snapshot())
    }

    /** The script as loaded: button enabled, light theme, nothing armed yet. */
    constructor (url: string, elements: seq<Element>, tree: Tree, contextValid: bool)
      requires !AnyButton(tree) && WellPlaced(elements, tree)
      ensures Valid()
      ensures Snapshot() == State(true, false, url, elements, tree, contextValid, [], 0, [], [], [], 0)
    {
      this.enabled := true;
      this.darkMode := false;
      this.url := url;
      this.elements := elements;
      this.tree := tree;
      this.contextValid := contextValid;
      this.outbox := [];
      this.nextGeneration := 0;
      this.pendingRemovals := [];
      this.sessions := [];
      this.lastUrls := [];
      this.pendingRechecks := 0;
    }

    /** removeExistingButton */
    method Remove()
      requires Valid()
      modifies this
      ensures Valid() && Snapshot() == Removal(old(Snapshot()))
    {
      if AnyButton(tree) {
        var c, i :| c in tree && 0 <= i < |tree[c]| && HoldsButton(tree[c][i]);
        ButtonOfAt(tree, c, i);
        pendingRemovals := pendingRemovals + [tree[c][i].button.value.generation];
      }
    }

    /** injectButtonToSelector */
    method Inject() returns (ok: bool)
      requires Valid()
      modifies this
      ensures Valid() && (ok, Snapshot()) == InjectStep(old(Snapshot()))
    {
      var gate := Gates();
      match gate
      case Disabled =>
        Remove();
        ok := false;
      case AlreadyPresent =>
        ok := true;
      case Insert(target) =>
        ok := InsertButton(target);
      case _ =>
        ok := false;
    }

    /** The checks of injectButtonToSelector, in their order, up to the target search. */
    method Gates() returns (gate: Gate)
      ensures gate == GateOf(Snapshot())
    {
      if !enabled {
        return Disabled;
      }
      if IsHomepage(url) {
        return Homepage;
      }
      if !IsPremium(elements) {
        return NotPremium;
      }
      if AnyButton(tree) {
        return AlreadyPresent;
      }
      var target := FindTarget(elements);
      if target.None? {
        return NoTarget;
      }
      return Insert(target.value);
    }

    /** The part of injectButtonToSelector after the gates: create, insert, notify. */
    method InsertButton(target: NodeId) returns (ok: bool)
      requires Valid() && !AnyButton(tree)
      modifies this
      ensures Valid()
      ensures ok == old(contextValid) && Snapshot() == Inserted(old(Snapshot()), target)
    {
      ghost var s0 := Snapshot();
      InsertedKeepsInv(s0, target);
      tree := InsertInto(tree, target, Wrapper(Some(BreakButton(nextGeneration, darkMode))));
      nextGeneration := nextGeneration + 1;
      if !contextValid {
        // chrome.runtime.sendMessage throws; the catch reports failure
        assert Snapshot() == Inserted(s0, target);
        return false;
      }
      outbox := outbox + [Plain(ButtonInjectedAction)];
      assert Snapshot() == Inserted(s0, target);
      return true;
    }

    /** updateButtonVisibility */
    method UpdateVisibility(e: bool)
      requires Valid()
      modifies this
      ensures Valid() && Snapshot() == Visibility(old(Snapshot()), e)
    {
      enabled := e;
      if e {
        if !AnyButton(tree) {
          var _ := Inject();
        }
      } else {
        Remove();
      }
    }

    /** The runtime.onMessage listener; `reply` is what is passed to sendResponse. */
    method HandleMessage(m: Message) returns (reply: Option<Response>)
      requires Valid()
      modifies this
      ensures Valid() && (reply, Snapshot()) == Handle(old(Snapshot()), m)
    {
      if m.action == PingAction {
        reply := Some(Alive);
      } else if m.action == PerformAction {
        reply := Some(StatusText("Redirecting to: " + FreediumUrl(url)));
      } else if m.action == InjectButtonAction {
        if enabled {
          var _ := Inject();
        }
        reply := Some(Success);
      } else if m.action == VisibilityAction {
        UpdateVisibility(Truthy(m.isEnabled));
        reply := Some(Success);
      } else if m.action == ThemeAction {
        darkMode := Truthy(m.darkMode);
        RestyleKeepsButton(tree, darkMode);
        RestyleKeepsBelow(tree, darkMode, nextGeneration);
        PlacedGrows(elements, tree, Restyle(tree, darkMode));
        tree := Restyle(tree, darkMode);
        reply := Some(Success);
      } else {
        reply := None;
      }
    }

    /** One firing of the interval of retry session `k`. */
    method RetryTick(k: nat) returns (injected: bool)
      requires Valid() && k < |sessions|
      modifies this
      ensures Valid() && (injected, Snapshot()) == Tick(old(Snapshot()), k)
    {
      var attempts := sessions[k] + 1;
      injected := Inject();
      if Clears(attempts, injected) {
        sessions := RemoveAt(sessions, k);
      } else {
        sessions := sessions[k := attempts];
      }
    }

    /** setupPersistentObserver (which also runs monitorURLChanges) */
    method SetupPersistentObserver()
      requires Valid()
      modifies this
      ensures Valid() && Snapshot() == Setup(old(Snapshot()))
    {
      lastUrls := lastUrls + [url];
    }

    /** startContinuousInjection */
    method StartContinuousInjection()
      requires Valid()
      modifies this
      ensures Valid() && Snapshot() == StartRetrying(old(Snapshot()))
    {
      sessions := sessions + [0];
      SetupPersistentObserver();
    }

    /** A batch of mutation notifications reaches the observers, presence observers first. */
    method OnMutation(inBody: bool, childList: bool)
      requires Valid()
      modifies this
      ensures Valid() && Snapshot() == Observe(old(Snapshot()), inBody, childList)
    {
      if inBody {
        RunPresenceObservers();
      }
      if childList {
        RunUrlTrackers();
      }
    }

    /** Each presence observer, in the order they were set up, reinjects a missing button. */
    method RunPresenceObservers()
      requires Valid()
      modifies this
      ensures Valid() && Snapshot() == PresenceChecks(old(Snapshot()))
    {
      ghost var s0 := Snapshot();
      var i := 0;
      while i < |lastUrls|
        invariant Valid()
        invariant |lastUrls| == |s0.lastUrls| && 0 <= i <= |lastUrls|
        invariant Snapshot() == if i == 0 then s0 else PresenceChecks(s0)
      {
        if !AnyButton(tree) {
          AbsentInjectSettles(s0);
          var _ := Inject();
        }
        i := i + 1;
      }
    }

    /** Each URL tracker that saw another URL records the new one and starts a settle timer. */
    method RunUrlTrackers()
      requires Valid()
      modifies this
      ensures Valid() && Snapshot() == UrlChecks(old(Snapshot()))
    {
      ghost var s1 := Snapshot();
      var trackers := lastUrls;
      var started := 0;
      var j := 0;
      while j < |trackers|
        invariant |trackers| == |s1.lastUrls| && 0 <= j <= |trackers|
        invariant forall q :: 0 <= q < j ==> trackers[q] == url
        invariant forall q :: j <= q < |trackers| ==> trackers[q] == s1.lastUrls[q]
        invariant started == CountStale(s1.lastUrls[..j], url)
      {
        assert s1.lastUrls[..j + 1][..j] == s1.lastUrls[..j];
        if url != trackers[j] {
          trackers := trackers[j := url];
          started := started + 1;
        }
        j := j + 1;
      }
      assert s1.lastUrls[..j] == s1.lastUrls;
      assert trackers == seq(|s1.lastUrls|, _ => s1.url);
      lastUrls, pendingRechecks := trackers, pendingRechecks + started;
    }

    /** The wrapped history.pushState. */
    method OnUrlChange(newUrl: string)
      requires Valid()
      modifies this
      ensures Valid() && Snapshot() == PushState(old(Snapshot()), newUrl)
    {
      url := newUrl;
      pendingRechecks := pendingRechecks + |lastUrls|;
    }

    /** A settle timer started by a URL tracker or a history hook fires. */
    method OnSettleElapsed()
      requires Valid() && pendingRechecks > 0
      modifies this
      ensures Valid() && Snapshot() == Recheck(old(Snapshot()))
    {
      pendingRechecks := pendingRechecks - 1;
      if !AnyButton(tree) {
        var _ := Inject();
      }
    }

    /** Removal timer `k` fires. */
    method OnRemovalElapsed(k: nat)
      requires Valid() && k < |pendingRemovals|
      modifies this
      ensures Valid() && Snapshot() == RemovalElapsed(old(Snapshot()), k)
    {
      DetachKeepsUnique(tree, pendingRemovals[k]);
      DetachKeepsBelow(tree, pendingRemovals[k], nextGeneration);
      PlacedGrows(elements, tree, Detach(tree, pendingRemovals[k]));
      tree := Detach(tree, pendingRemovals[k]);
      pendingRemovals := RemoveAt(pendingRemovals, k);
    }

    /** The callback of the storage read made when the script loads. */
    method OnSettingsLoaded(stored: Storage, systemDark: bool)
      requires Valid()
      modifies this
      ensures Valid() && Snapshot() == SettingsLoaded(old(Snapshot()), stored, systemDark)
    {
      if stored.settings.Some? && stored.settings.value.enableButton.Some? {
        enabled := stored.settings.value.enableButton.value;
      }
      if stored.darkMode.Some? {
        darkMode := stored.darkMode.value;
      } else {
        darkMode := systemDark;
      }
    }

    /** The DOMContentLoaded handler. */
    method OnDomContentLoaded()
      requires Valid()
      modifies this
      ensures Valid() && Snapshot() == DomContentLoaded(old(Snapshot()))
    {
      var ok := Inject();
      if !ok {
        StartContinuousInjection();
      } else {
        SetupPersistentObserver();
      }
    }

    /** The window load handler. */
    method OnWindowLoad()
      requires Valid()
      modifies this
      ensures Valid() && Snapshot() == WindowLoad(old(Snapshot()))
    {
      if !AnyButton(tree) {
        var ok := Inject();
        if !ok {
          StartContinuousInjection();
        } else {
          SetupPersistentObserver();
        }
      } else {
        SetupPersistentObserver();
      }
    }

    /**
     * The host page re-renders or navigates on its own. It may keep or drop the
     * script's button but never makes one, so never a second one.
     */
    method HostRender(newUrl: string, newElements: seq<Element>, newTree: Tree)
      requires Valid() && PageInv(newElements, newTree, nextGeneration)
      modifies this
      ensures Valid()
      ensures Snapshot() == old(Snapshot()).(url := newUrl, elements := newElements, tree := newTree)
    {
      url, elements, tree := newUrl, newElements, newTree;
    }

    /** The extension is reloaded under the page: later runtime calls throw. */
    method InvalidateContext()
      requires Valid()
      modifies this
      ensures Valid() && Snapshot() == old(Snapshot()).(contextValid := false)
    {
      contextValid := false;
    }
  }
}
