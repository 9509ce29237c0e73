/**
 * The master page's navigation helpers and tab repositories: every route is built from
 * the page's `routeView` and its last segment (the base route); navigation itself is a
 * side effect, modelled by the route string it would push. The tab hook picks the
 * repository of the active tab and resets the filter to that tab's first page.
 */
module Routes {
  import opened Wrappers
  import opened JsValues
  import opened JsObjects
  import opened ServiceTypes
  import Strings

  /** `"/" + listPath[listPath.length - 1]` with `listPath = routeView.split("/")`. */
  function BaseRoute(routeView: string): (r: string)
    ensures |r| >= 1 && r[0] == '/' && '/' !in r[1..]
  {
    "/" + Strings.Last(Strings.Split(routeView, '/'))
  }

  /** The base route names the last segment of the route: a suffix without `/`, the whole route or preceded by a `/`. */
  lemma BaseRouteIsLastSegment(routeView: string)
    ensures var segment := BaseRoute(routeView)[1..];
      |segment| <= |routeView| && routeView[|routeView| - |segment|..] == segment && '/' !in segment &&
      (|segment| == |routeView| || routeView[|routeView| - |segment| - 1] == '/')
  {
    Strings.LastPieceIsSuffix(routeView, '/');
    assert BaseRoute(routeView)[1..] == Strings.Last(Strings.Split(routeView, '/'));
  }

  /** `${id}` for a string or a number. */
  function IdText(id: KeyType): string {
    match id
    case NumberKey(n) => Strings.IntToString(n)
    case StringKey(s) => s
  }

  /** `handleGoCreate`: `${routeView}${baseRoute}-detail`. */
  function CreateRoute(routeView: string): (r: string)
  {
    routeView + BaseRoute(routeView) + "-detail"
  }

  /** `handleGoDetail(id)`: the create route with the id as query parameter. */
  function DetailRoute(routeView: string, id: KeyType): (r: string)
    ensures r == CreateRoute(routeView) + "?id=" + IdText(id)
  {
    routeView + BaseRoute(routeView) + "-detail?id=" + IdText(id)
  }

  /** `handleGoMaster` of the master page: `${routeView}${baseRoute}-master`. */
  function MasterRoute(routeView: string): (r: string)
  {
    routeView + BaseRoute(routeView) + "-master"
  }

  /** `handleGoPreView(id)`. */
  function PreviewRoute(routeView: string, id: KeyType): (r: string)
  {
    routeView + BaseRoute(routeView) + "-preview?id=" + IdText(id)
  }

  /** `handleGoApprove(id)`. */
  function ApproveRoute(routeView: string, id: KeyType): (r: string)
  {
    routeView + BaseRoute(routeView) + "-approve?id=" + IdText(id)
  }

  /** `handleGoElseWhere(route, { key, value })`: `${route}?${key}=${value}`. */
  function ElseWhereRoute(route: string, key: string, value: KeyType): (r: string)
    ensures |r| == |route| + |key| + |IdText(value)| + 2
    ensures r[..|route|] == route && r[|route|] == '?'
  {
    route + "?" + key + "=" + IdText(value)
  }

  /** Going elsewhere to the create route with the `id` key is going to the detail route. */
  lemma ElseWhereToDetail(routeView: string, id: KeyType)
    ensures ElseWhereRoute(CreateRoute(routeView), "id", id) == DetailRoute(routeView, id)
  {
  }

  /** The routes of a page stay under its `routeView`, and differ only in their suffix after the base route. */
  lemma RoutesShareThePrefix(routeView: string, id: KeyType)
    ensures var prefix := routeView + BaseRoute(routeView);
      CreateRoute(routeView)[..|prefix|] == prefix && MasterRoute(routeView)[..|prefix|] == prefix &&
      DetailRoute(routeView, id)[..|prefix|] == prefix && PreviewRoute(routeView, id)[..|prefix|] == prefix &&
      ApproveRoute(routeView, id)[..|prefix|] == prefix
  {
  }

  /** The detail page's `handleGoMaster`: the master route followed by the query parameters, when there are any. */
  function DetailGoMasterRoute(routeView: string, queryParams: Option<string>): (r: string)
    ensures queryParams.None? || queryParams.value == "" ==> r == MasterRoute(routeView)
    ensures queryParams.Some? ==> r == MasterRoute(routeView) + queryParams.value
  {
    routeView + BaseRoute(routeView) + "-master" + (if queryParams.Some? then queryParams.value else "")
  }

  /** A page whose route is `/<a>/<b>` has base route `/<b>`. */
  lemma BaseRouteExample(a: string, b: string)
    requires '/' !in a && '/' !in b
    ensures BaseRoute("/" + a + "/" + b) == "/" + b
  {
    var s := "/" + a + "/" + b;
    assert Strings.Split(s, '/') == ["", a, b] by {
      Strings.SplitLeading(s, '/');
      assert s[1..] == a + ['/'] + b;
      Strings.SplitAround(a, b, '/');
    }
  }

  /** A page whose route is `/<a>/<b>` creates at `/<a>/<b>/<b>-detail` and lists at `/<a>/<b>/<b>-master`. */
  lemma RouteExample(a: string, b: string)
    requires '/' !in a && '/' !in b
    ensures var r := "/" + a + "/" + b; CreateRoute(r) == r + ("/" + b) + "-detail"
    ensures var r := "/" + a + "/" + b; MasterRoute(r) == r + ("/" + b) + "-master"
  {
    BaseRouteExample(a, b);
  }

  /**
   * A tab of the master page: its key and title. Its `list` / `count` / `export` /
   * `import` repository functions are calls into code this model does not see.
   */
  datatype RepoState = RepoState(tabKey: string, tabTitle: string)

  /** An action of the repository reducer. */
  datatype RepoAction = RepoAction(kind: string, data: RepoState)

  /** `repositoryReducer`: UPDATE takes a copy of the action's repository, anything else a copy of the state. */
  function RepositoryReducer(state: RepoState, action: RepoAction): (r: RepoState)
    ensures action.kind == "UPDATE" ==> r == action.data
    ensures action.kind != "UPDATE" ==> r == state
  {
    if action.kind == "UPDATE" then action.data else state
  }

  /** `tabRepositories.filter((t) => t.tabKey === key)[0]`, `None` for `undefined`. */
  function FirstTab(tabs: seq<RepoState>, key: Value): (r: Option<RepoState>)
    ensures r.None? <==> forall i :: 0 <= i < |tabs| ==> Str(tabs[i].tabKey) != key
    ensures r.Some? ==> exists i :: (0 <= i < |tabs| && tabs[i] == r.value && Str(r.value.tabKey) == key &&
      forall j :: 0 <= j < i ==> Str(tabs[j].tabKey) != key)
  {
    if |tabs| == 0 then None
    else if Str(tabs[0].tabKey) == key then Some(tabs[0])
    else
      var r := FirstTab(tabs[1..], key);
      assert forall j :: 1 <= j < |tabs| ==> tabs[j] == tabs[1..][j - 1];
      r
  }

  /**
   * `initRepo`: with a truthy `tabKey` among the parsed query parameters, the first tab of
   * that key (`undefined` when none has it); otherwise the first tab.
   */
  function InitRepo(tabs: seq<RepoState>, query: Rec): (r: Option<RepoState>)
    ensures Truthy(Get(query, "tabKey")) ==> r == FirstTab(tabs, Get(query, "tabKey"))
    ensures !Truthy(Get(query, "tabKey")) ==> r == if |tabs| > 0 then Some(tabs[0]) else None
  {
    if Truthy(Get(query, "tabKey")) then FirstTab(tabs, Get(query, "tabKey"))
    else if |tabs| > 0 then Some(tabs[0]) else None
  }

  /** What `handleChangeTab` dispatches: the repository UPDATE and the filter SET, either possibly absent. */
  datatype TabChange = TabChange(repo: Option<RepoState>, filter: Option<JsObject>)

  /** The filter of a tab's first page: a fresh filter with the tab's key, `skip` 0 and `take` 10. */
  function TabFilter(blank: JsObject, tabKey: string): (r: JsObject)
    ensures Lookup(r, "tabKey") == Str(tabKey) && Lookup(r, "skip") == Num(0) && Lookup(r, "take") == Num(10)
  {
    var withKey := Set(blank, "tabKey", Str(tabKey));
    var withSkip := Set(withKey, "skip", Num(0));
    assert "tabKey" != "skip" && "tabKey" != "take" && "skip" != "take" by {
      assert |"tabKey"| != |"skip"| && "skip"[0] != "take"[0];
    }
    Set(withSkip, "take", Num(10))
  }

  /** Every other key of the tab's filter is the fresh filter's. */
  lemma TabFilterKeepsOthers(blank: JsObject, tabKey: string, k: string)
    requires k != "tabKey" && k != "skip" && k != "take"
    ensures Has(TabFilter(blank, tabKey), k) <==> Has(blank, k)
    ensures Lookup(TabFilter(blank, tabKey), k) == Lookup(blank, k)
  {
  }

  /** `handleChangeTab(activeTabKey)`: nothing for an unknown key; otherwise the tab and, with a filter dispatcher, its first page. */
  function HandleChangeTab(tabs: seq<RepoState>, activeTabKey: string, hasDispatch: bool, blank: JsObject): (r: TabChange)
    ensures FirstTab(tabs, Str(activeTabKey)).None? ==> r == TabChange(None, None)
    ensures FirstTab(tabs, Str(activeTabKey)).Some? ==>
      r.repo == FirstTab(tabs, Str(activeTabKey)) && r.repo.value.tabKey == activeTabKey &&
      (r.filter.Some? <==> hasDispatch)
    ensures r.filter.Some? ==> r.filter.value == TabFilter(blank, activeTabKey)
  {
    match FirstTab(tabs, Str(activeTabKey))
    case None => TabChange(None, None)
    case Some(tab) => TabChange(Some(tab), if hasDispatch then Some(TabFilter(blank, tab.tabKey)) else None)
  }

  /** The repository after the tab change: the reducer applied to the UPDATE, if one is dispatched. */
  function RepoAfterChange(repo: RepoState, change: TabChange): RepoState {
    if change.repo.Some? then RepositoryReducer(repo, RepoAction("UPDATE", change.repo.value)) else repo
  }

  /**
   * Opening the page with `?tabKey=k` and changing to tab `k` later select the same
   * repository, when `k` names a tab.
   */
  lemma ChangeTabAgreesWithInit(tabs: seq<RepoState>, query: Rec, repo: RepoState, k: string, hasDispatch: bool, blank: JsObject)
    requires Get(query, "tabKey") == Str(k) && |k| > 0
    requires exists i :: 0 <= i < |tabs| && tabs[i].tabKey == k
    ensures InitRepo(tabs, query) == Some(RepoAfterChange(repo, HandleChangeTab(tabs, k, hasDispatch, blank)))
  {
    var i :| 0 <= i < |tabs| && tabs[i].tabKey == k;
    assert Str(tabs[i].tabKey) == Str(k);
  }

  /** Changing to the tab already shown leaves the repository as it is. */
  lemma ChangeTabToCurrentKeepsRepo(tabs: seq<RepoState>, repo: RepoState, hasDispatch: bool, blank: JsObject)
    requires repo in tabs && forall i, j :: 0 <= i < j < |tabs| ==> tabs[i].tabKey != tabs[j].tabKey
    ensures RepoAfterChange(repo, HandleChangeTab(tabs, repo.tabKey, hasDispatch, blank)) == repo
  {
    var i :| 0 <= i < |tabs| && tabs[i] == repo;
    var r := FirstTab(tabs, Str(repo.tabKey));
    assert r.Some?;
    var j :| 0 <= j < |tabs| && tabs[j] == r.value && Str(r.value.tabKey) == Str(repo.tabKey) &&
      forall m :: 0 <= m < j ==> Str(tabs[m].tabKey) != Str(repo.tabKey);
    assert j == i;
  }
}
