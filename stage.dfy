/** The Stage section of `app/components/Stage.tsx`: three tabs, the URL
    hash that picks one, the tab buttons, and the lookup of the tab to
    show. The menu links of `app/components/Navigation.tsx` that lead to a
    tab are modelled too, as the hashes they produce. */
module Stage {
  import opened Wrappers
  import opened JsStrings

  /** A tab: its id, button text, heading and calendar. Its images and
      body text are presentation only. */
  datatype Tab = Tab(id: string, buttonText: string, title: string, calendarId: string)

  /** The tabs, in button order. */
  const Tabs: seq<Tab> := [
    Tab("didi", "DIDI", "About DIDI", "didi"),
    Tab("people-you-may-know", "People You May Know", "About People You May Know", "pymk"),
    Tab("grad-school-improv", "Grad School Improv", "About Grad School Improv", "gsi")
  ]

  /** The tab ids are distinct, so finding a tab by id is unambiguous. */
  lemma TabIdsDistinct()
    ensures forall i, j :: 0 <= i < |Tabs| && 0 <= j < |Tabs| && Tabs[i].id == Tabs[j].id ==> i == j
  {
    assert Tabs[0].id[0] == 'd' && Tabs[1].id[0] == 'p' && Tabs[2].id[0] == 'g';
  }

  const HashPrefix := "stage-"

  /** The tab a `location.hash` asks for: the text after `#stage-`, or
      `None` when the hash does not start so and the tab stays. */
  function HashTarget(locationHash: string): (r: Option<string>)
    ensures r.Some? <==> |locationHash| >= 7 && locationHash[1..7] == HashPrefix
    ensures r.Some? ==> r.value == locationHash[7..]
  {
    var hash := Substring(locationHash, 1);
    if StartsWith(hash, HashPrefix) then
      ReplacePrefixDrops(hash, HashPrefix);
      assert hash[6..] == locationHash[7..];
      Some(ReplaceFirst(hash, HashPrefix, ""))
    else None
  }

  /** `tabs.find(tab => tab.id === id)`: the first tab with that id. */
  function FindTab(tabs: seq<Tab>, id: string): (r: Option<Tab>)
    ensures r.Some? <==> exists i :: 0 <= i < |tabs| && tabs[i].id == id
    ensures r.Some? ==> r.value.id == id && r.value in tabs
  {
    if |tabs| == 0 then None
    else if tabs[0].id == id then Some(tabs[0])
    else
      var rest := FindTab(tabs[1..], id);
      assert forall i :: 1 <= i < |tabs| ==> tabs[i] == tabs[1..][i - 1];
      rest
  }

  /** `tabs.find(...) || tabs[0]`: the tab shown for an active id. */
  function ResolveTab(id: string): (r: Tab)
    ensures r in Tabs
    ensures (exists i :: 0 <= i < |Tabs| && Tabs[i].id == id) ==> r.id == id
    ensures (forall i :: 0 <= i < |Tabs| ==> Tabs[i].id != id) ==> r == Tabs[0]
  {
    match FindTab(Tabs, id)
    case Some(t) => t
    case None => Tabs[0]
  }

  /** The page address a menu entry for a tab navigates to. */
  function SubsectionHref(subsection: string): string {
    "/#stage-" + subsection
  }

  /** `location.hash` after navigating to `href`: `#` and the fragment, or
      the empty string when there is no fragment or it is empty. */
  function HashOf(href: string): (r: string)
    ensures r == "" || r[0] == '#'
  {
    match IndexOf(href, "#")
    case None => ""
    case Some(i) => if i + 1 == |href| then "" else href[i..]
  }

  /** The tab ids the menu links name, in both the desktop and the mobile
      menu. */
  const Subsections: seq<string> := ["didi", "people-you-may-know", "grad-school-improv"]

  /** The hash of `#stage-<id>` asks for exactly `<id>`. */
  lemma HashTargetOfStageHash(id: string)
    ensures HashTarget("#stage-" + id) == Some(id)
  {
    var h := "#stage-" + id;
    assert h[1..7] == HashPrefix && h[7..] == id;
  }

  /** Following a menu link selects its tab, which exists, so the fallback
      to the first tab is never what a link shows. */
  lemma SubsectionLinksResolve(k: nat)
    requires k < |Subsections|
    ensures HashTarget(HashOf(SubsectionHref(Subsections[k]))) == Some(Subsections[k])
    ensures ResolveTab(Subsections[k]) == Tabs[k]
  {
    var href := SubsectionHref(Subsections[k]);
    assert href[0] == '/' && href[1] == '#';
    assert href[0..1] != "#";
    assert OccursAt(href, "#", 1) && !OccursAt(href, "#", 0);
    assert HashOf(href) == "#stage-" + Subsections[k] by {
      assert href[1..] == "#stage-" + Subsections[k];
    }
    HashTargetOfStageHash(Subsections[k]);
    TabIdsDistinct();
    assert Tabs[k].id == Subsections[k];
  }

  /** The state of the Stage section. */
  class StageSection {
    var activeTab: string

    constructor ()
      ensures activeTab == "didi"
    {
      activeTab := "didi";
    }

    /** `handleHashChange`, run on mount and on every `hashchange`, with the
        current `location.hash` as a parameter. */
    method HandleHashChange(locationHash: string)
      modifies this
      ensures HashTarget(locationHash).Some? ==> activeTab == HashTarget(locationHash).value
      ensures HashTarget(locationHash).None? ==> activeTab == old(activeTab)
    {
      var hash := Substring(locationHash, 1);
      if StartsWith(hash, HashPrefix) {
        var tab := ReplaceFirst(hash, HashPrefix, "");
        activeTab := tab;
      }
    }

    /** A click on a tab's button. */
    method ClickTab(tab: Tab)
      modifies this
      ensures activeTab == tab.id
    {
      activeTab := tab.id;
    }

    /** `activeTabData`. */
    function ActiveTabData(): Tab
      reads this
    {
      ResolveTab(activeTab)
    }

    /** Whether the button of tab `i` is styled active. */
    function ButtonActive(i: nat): bool
      requires i < |Tabs|
      reads this
    {
      activeTab == Tabs[i].id
    }

    /** The calendar whose events the section lists. */
    function CalendarId(): string
      reads this
    {
      ActiveTabData().calendarId
    }
  }

  /** Before any hash applies, the first tab is shown, its button is the
      active one, and its calendar is listed. */
  lemma InitialTabIsFirst(activeTab: string)
    requires activeTab == "didi"
    ensures ResolveTab(activeTab) == Tabs[0]
    ensures forall i :: 0 <= i < |Tabs| ==> (activeTab == Tabs[i].id <==> i == 0)
    ensures ResolveTab(activeTab).calendarId == "didi"
  {
    TabIdsDistinct();
  }

  /** For an id that names no tab the first tab's content shows, yet no
      button is styled active. */
  lemma UnknownTabShowsFirstUnhighlighted(activeTab: string)
    requires forall i :: 0 <= i < |Tabs| ==> Tabs[i].id != activeTab
    ensures ResolveTab(activeTab) == Tabs[0]
    ensures ResolveTab(activeTab).id != activeTab
    ensures ResolveTab(activeTab).calendarId == "didi"
  {
  }

  /** For a known id exactly its button is active and its tab shows, with
      that tab's calendar. */
  lemma KnownTabShowsItself(k: nat)
    requires k < |Tabs|
    ensures ResolveTab(Tabs[k].id) == Tabs[k]
    ensures forall i :: 0 <= i < |Tabs| ==> (Tabs[k].id == Tabs[i].id <==> i == k)
    ensures ResolveTab(Tabs[k].id).calendarId == Tabs[k].calendarId
  {
    TabIdsDistinct();
  }
}
