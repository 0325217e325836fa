/** The plugin marketplace: a fixed catalogue, a category tab and a search box
    that filter it, and a two-step install (INSTALLING, then INSTALLED after a
    delay) of one plugin at a time. */
module Plugins {
  import opened Prelude
  import opened Text

  datatype InstallStatus = Ready | Installing | Installed

  /** A catalogue entry; `rating` is in tenths of a star (4.8 is 48). */
  datatype Plugin = Plugin(
    id: string, name: string, description: string, developer: string,
    category: string, icon: string, rating: nat, status: InstallStatus, color: string)

  /** The catalogue the page starts from. */
  const Catalogue: seq<Plugin> := [
    Plugin("p1", "LinkedIn Scout", "Auto-import candidates from LinkedIn with one click.",
           "RecruitAI Core", "Job Boards", "share", 48, Ready, "bg-blue-600"),
    Plugin("p2", "Slack AI Bot", "Get real-time hiring alerts and chat with candidates in Slack.",
           "Communication Hub", "Communication", "chat_bubble", 45, Installed, "bg-purple-600"),
    Plugin("p3", "Resume Parser Pro", "Extract skills and experience from 50+ resume formats.",
           "AI Intelligence", "AI Tools", "description", 49, Ready, "bg-emerald-600"),
    Plugin("p4", "Predictive Hired", "AI model that predicts candidate retention and success.",
           "Data Science Lab", "Analytics", "query_stats", 47, Ready, "bg-amber-600"),
    Plugin("p5", "Gmail Sync", "Sync email threads and schedule interviews directly.",
           "Productivity Suite", "Communication", "mail", 46, Ready, "bg-red-500"),
    Plugin("p6", "GitHub Talent scout", "Analyze developer portfolios and contributions automatically.",
           "RecruitAI Labs", "Job Boards", "code", 44, Ready, "bg-slate-900")
  ]

  // The filter.

  predicate MatchesCategory(activeCategory: string, p: Plugin) {
    activeCategory == "All" || p.category == activeCategory
  }

  /** The lower-cased query occurs in the lower-cased name or description. */
  predicate MatchesSearch(query: string, p: Plugin) {
    Contains(ToLower(p.name), ToLower(query)) || Contains(ToLower(p.description), ToLower(query))
  }

  function Matches(activeCategory: string, query: string): Plugin -> bool {
    p => MatchesCategory(activeCategory, p) && MatchesSearch(query, p)
  }

  /** `filteredPlugins`. */
  function Visible(plugins: seq<Plugin>, activeCategory: string, query: string): seq<Plugin> {
    Filter(plugins, Matches(activeCategory, query))
  }

  /** A plugin is listed exactly when both its category and the search match,
      as often as it occurs in the catalogue and in catalogue order. */
  lemma VisibleIffMatches(plugins: seq<Plugin>, activeCategory: string, query: string)
    ensures IsSubsequence(Visible(plugins, activeCategory, query), plugins)
    ensures forall p: Plugin :: multiset(Visible(plugins, activeCategory, query))[p] ==
              (if MatchesCategory(activeCategory, p) && MatchesSearch(query, p) then multiset(plugins)[p] else 0)
  {
    FilterIsSubsequence(plugins, Matches(activeCategory, query));
    forall p: Plugin ensures multiset(Visible(plugins, activeCategory, query))[p] ==
      if MatchesCategory(activeCategory, p) && MatchesSearch(query, p) then multiset(plugins)[p] else 0
    {
      FilterCount(plugins, Matches(activeCategory, query), p);
    }
  }

  /** With the "All" tab and an empty search box every plugin is listed. */
  lemma AllWithEmptySearchListsEverything(plugins: seq<Plugin>)
    ensures Visible(plugins, "All", "") == plugins
  {
    forall i | 0 <= i < |plugins| ensures Matches("All", "")(plugins[i]) {
      ContainsEmpty(ToLower(plugins[i].name));
    }
    FilterKeepsAll(plugins, Matches("All", ""));
  }

  /** On a category tab other than "All" only that category is listed. */
  lemma TabListsItsCategory(plugins: seq<Plugin>, activeCategory: string, query: string)
    requires activeCategory != "All"
    ensures forall i :: 0 <= i < |Visible(plugins, activeCategory, query)| ==>
      Visible(plugins, activeCategory, query)[i].category == activeCategory
  {
  }

  /** The search ignores the case of the query. */
  lemma SearchIgnoresCase(plugins: seq<Plugin>, activeCategory: string, query: string)
    ensures Visible(plugins, activeCategory, ToLower(query)) == Visible(plugins, activeCategory, query)
  {
    ToLowerIdempotent(query);
    FilterCongruent(plugins, Matches(activeCategory, ToLower(query)), Matches(activeCategory, query));
  }

  /** The "No plugins found" message shows exactly when no plugin matches. */
  lemma NothingFoundIffNoMatch(plugins: seq<Plugin>, activeCategory: string, query: string)
    ensures Visible(plugins, activeCategory, query) == [] <==>
      forall i :: 0 <= i < |plugins| ==>
        !(MatchesCategory(activeCategory, plugins[i]) && MatchesSearch(query, plugins[i]))
  {
    FilterEmpty(plugins, Matches(activeCategory, query));
  }

  // Installing.

  /** `prev.map(p => p.id === id ? { ...p, status } : p)`. */
  function WithStatus(plugins: seq<Plugin>, id: string, status: InstallStatus): seq<Plugin> {
    seq(|plugins|, i requires 0 <= i < |plugins| =>
      if plugins[i].id == id then plugins[i].(status := status) else plugins[i])
  }

  /** Setting the status touches only the plugins with that id, and only their
      status; the list keeps its length and order. */
  lemma WithStatusFrame(plugins: seq<Plugin>, id: string, status: InstallStatus)
    ensures |WithStatus(plugins, id, status)| == |plugins|
    ensures forall i :: 0 <= i < |plugins| && plugins[i].id != id ==>
      WithStatus(plugins, id, status)[i] == plugins[i]
    ensures forall i :: 0 <= i < |plugins| && plugins[i].id == id ==>
      WithStatus(plugins, id, status)[i].status == status
      && WithStatus(plugins, id, status)[i].(status := plugins[i].status) == plugins[i]
  {
  }

  /** The second step overrides the first: INSTALLING then INSTALLED is the
      same as INSTALLED at once. */
  lemma WithStatusLastWins(plugins: seq<Plugin>, id: string, s: InstallStatus, t: InstallStatus)
    ensures WithStatus(WithStatus(plugins, id, s), id, t) == WithStatus(plugins, id, t)
  {
  }

  /** The filter does not look at the install status, so installing never
      changes which plugins are listed; it changes only the listed status. */
  lemma {:induction false} InstallKeepsListing(plugins: seq<Plugin>, id: string, status: InstallStatus,
                                               activeCategory: string, query: string)
    ensures Visible(WithStatus(plugins, id, status), activeCategory, query)
         == WithStatus(Visible(plugins, activeCategory, query), id, status)
  {
    var keep := Matches(activeCategory, query);
    if plugins != [] {
      var head := plugins[0];
      var rest := plugins[1..];
      InstallKeepsListing(rest, id, status, activeCategory, query);
      var changed := WithStatus(plugins, id, status);
      assert changed[1..] == WithStatus(rest, id, status);
      assert keep(changed[0]) == keep(head);
      var shown := if keep(head) then [head] else [];
      assert Visible(plugins, activeCategory, query) == shown + Visible(rest, activeCategory, query);
      var shownChanged := if keep(head) then [changed[0]] else [];
      assert Visible(changed, activeCategory, query) == shownChanged + Visible(changed[1..], activeCategory, query);
      assert shownChanged == WithStatus(shown, id, status);
      WithStatusAppend(shown, Visible(rest, activeCategory, query), id, status);
    }
  }

  lemma WithStatusAppend(xs: seq<Plugin>, ys: seq<Plugin>, id: string, status: InstallStatus)
    ensures WithStatus(xs + ys, id, status) == WithStatus(xs, id, status) + WithStatus(ys, id, status)
  {
  }

  /** The ids of the catalogue are distinct, so an install in the page as
      shipped changes exactly one card. */
  lemma CatalogueIdsDistinct()
    ensures forall i, j :: 0 <= i < j < |Catalogue| ==> Catalogue[i].id != Catalogue[j].id
  {
  }

  /** The card offers the install button unless the plugin is INSTALLED, and
      disables it while the plugin is INSTALLING. */
  predicate InstallOffered(p: Plugin) {
    p.status != Installed
  }

  predicate InstallEnabled(p: Plugin) {
    InstallOffered(p) && p.status != Installing
  }

  /** So an install can only be started from READY. */
  lemma InstallStartsFromReady(p: Plugin)
    ensures InstallEnabled(p) <==> p.status == Ready
  {
  }

  /** The marketplace page's state. */
  class Marketplace {
    var plugins: seq<Plugin>
    var activeCategory: string
    var searchQuery: string

    constructor ()
      ensures plugins == Catalogue && activeCategory == "All" && searchQuery == ""
    {
      plugins := Catalogue;
      activeCategory := "All";
      searchQuery := "";
    }

    /** The cards on show. */
    function Cards(): seq<Plugin>
      reads this
    {
      Visible(plugins, activeCategory, searchQuery)
    }

    /** Clicking a category tab. */
    method SelectCategory(category: string)
      modifies this
      ensures activeCategory == category
      ensures plugins == old(plugins) && searchQuery == old(searchQuery)
    {
      activeCategory := category;
    }

    /** Typing in the search box. */
    method Search(query: string)
      modifies this
      ensures searchQuery == query
      ensures plugins == old(plugins) && activeCategory == old(activeCategory)
    {
      searchQuery := query;
    }

    /** The first step of `handleInstall(id)`. */
    method BeginInstall(id: string)
      modifies this
      ensures plugins == WithStatus(old(plugins), id, Installing)
      ensures activeCategory == old(activeCategory) && searchQuery == old(searchQuery)
    {
      plugins := WithStatus(plugins, id, Installing);
    }

    /** The delayed second step of `handleInstall(id)`. */
    method FinishInstall(id: string)
      modifies this
      ensures plugins == WithStatus(old(plugins), id, Installed)
      ensures activeCategory == old(activeCategory) && searchQuery == old(searchQuery)
    {
      plugins := WithStatus(plugins, id, Installed);
    }

    /** Both steps of an install: the plugins with that id end INSTALLED, the
        button of every one of them is disabled in between, no other
        plugin changes, and the same cards stay on show with the new status. */
    method Install(id: string)
      modifies this
      ensures plugins == WithStatus(old(plugins), id, Installed)
      ensures Cards() == WithStatus(old(Cards()), id, Installed)
      ensures forall i :: 0 <= i < |plugins| && old(plugins)[i].id != id ==> plugins[i] == old(plugins)[i]
      ensures activeCategory == old(activeCategory) && searchQuery == old(searchQuery)
    {
      BeginInstall(id);
      assert forall i :: 0 <= i < |plugins| && plugins[i].id == id ==> !InstallEnabled(plugins[i]);
      FinishInstall(id);
      WithStatusLastWins(old(plugins), id, Installing, Installed);
      InstallKeepsListing(old(plugins), id, Installed, activeCategory, searchQuery);
    }
  }
}
