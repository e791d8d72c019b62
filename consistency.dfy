/**
 * How the three scripts' separate decisions fit together: the domain tests,
 * the enable flag, the defaults written on install and the home feed.
 */
module Consistency {
  import opened Base
  import opened Urls
  import opened Protocol
  import Background
  import Content
  import Popup

  /** Every page the background probes is one the popup would redirect. */
  lemma ProbedPagesRedirect(tab: int, status: Option<string>, url: Option<string>)
    requires Background.ShouldProbe(status, url)
    ensures Popup.Redirect([Popup.Tab(tab, url)]) == Some(Popup.TabUpdate(tab, FreediumUrl(url.value)))
  {
  }

  /**
   * From the content script's initial `true`, the flag it loads is the
   * background's `enableButton` decision on the same stored settings.
   */
  lemma EnableFlagsAgree(s: Content.State, stored: Storage, systemDark: bool)
    requires s.enabled
    ensures Content.SettingsLoaded(s, stored, systemDark).enabled == Background.ButtonEnabled(stored.settings)
  {
  }

  /** After a first install the button is enabled and a click opens a new tab. */
  lemma FreshInstall(stored: Storage, url: string)
    requires stored.settings.None?
    ensures Background.ButtonEnabled(Background.InstallDefaults(stored).settings)
    ensures Content.Click(url, Background.InstallDefaults(stored)) == Content.OpenTab(FreediumUrl(url))
  {
  }

  /**
   * The background pings a home-feed tab like any other Medium page; it is the
   * content script's homepage gate that keeps the page unchanged there.
   */
  lemma HomepageProbedNotInjected(s: Content.State)
    requires IsHomepage(s.url)
    ensures Background.ShouldProbe(Some("complete"), Some(s.url))
    ensures !Content.InjectStep(s).0 && Content.InjectStep(s).1.tree == s.tree
  {
    HomepageIsMedium(s.url);
  }
}
