/**
 * The root instance's `getPageLink(relativePath, extraParams)`: resolve a
 * link written relative to the current page's source file, and turn it into
 * the URL of the page built from that file if there is one.
 */
module PageLink {
  import opened Wrappers
  import PosixPath

  /**
   * A route of the table; `relative` is the page's source file relative to
   * the pages directory (`meta.__relative`), `None` when the route has no
   * `meta` or no such field.
   */
  datatype Route = Route(path: string, relative: Option<string>)

  /** `dirname` of an undefined path throws a `TypeError`. */
  datatype PageLinkError = CurrentRouteHasNoRelative

  /** The route is a page built from the file `p`; a missing or empty `__relative` never matches. */
  predicate Matches(route: Route, p: string): (r: bool)
    ensures r <==> p != "" && route.relative == Some(p)
  {
    route.relative.Some? && route.relative.value != "" && route.relative.value == p
  }

  /** The scan over the route table: the index of the first route that matches. */
  function FindPage(routes: seq<Route>, p: string): (r: Option<nat>)
    ensures r.Some? ==> r.value < |routes| && Matches(routes[r.value], p)
    ensures r.Some? ==> forall j :: 0 <= j < r.value ==> !Matches(routes[j], p)
    ensures r.None? ==> forall j :: 0 <= j < |routes| ==> !Matches(routes[j], p)
    decreases |routes|
  {
    if routes == [] then None
    else if Matches(routes[0], p) then Some(0)
    else
      match FindPage(routes[1..], p)
      case None => None
      case Some(i) => Some(i + 1)
  }

  /**
   * `join(dirname(current), relativePath)`: never empty, and absolute exactly
   * when the current page's file is.
   */
  function Resolve(current: string, relativePath: string): (r: string)
    ensures r != ""
    ensures current != "" ==> (r[0] == PosixPath.SEP <==> current[0] == PosixPath.SEP)
  {
    PosixPath.Join(PosixPath.Dirname(current), relativePath)
  }

  /** `extraParams || ''`. */
  function Suffix(extraParams: Option<string>): string
  {
    match extraParams
    case None => ""
    case Some(e) => e
  }

  /**
   * `getPageLink`: `current` is the current route's `meta.__relative`,
   * `routes` the router's route table in order.
   */
  function GetPageLink(current: Option<string>, routes: seq<Route>, relativePath: string,
                       extraParams: Option<string>): (r: Result<string, PageLinkError>)
    ensures r.Err? <==> current.None?
  {
    match current
    case None => Err(CurrentRouteHasNoRelative)
    case Some(c) =>
      var resolved := Resolve(c, relativePath);
      match FindPage(routes, resolved)
      case Some(i) => Ok(routes[i].path + Suffix(extraParams))
      case None => Ok(resolved)
  }

  /** Without a current `__relative` the call throws, whatever the arguments. */
  lemma ThrowsWithoutCurrentRelative(routes: seq<Route>, relativePath: string, extraParams: Option<string>)
    ensures GetPageLink(None, routes, relativePath, extraParams) == Err(CurrentRouteHasNoRelative)
  {
  }

  /** The first route, in table order, whose source file is the resolved path gives the link. */
  lemma LinksToFirstMatch(current: string, routes: seq<Route>, relativePath: string,
                          extraParams: Option<string>, i: nat)
    requires i < |routes| && Matches(routes[i], Resolve(current, relativePath))
    requires forall j :: 0 <= j < i ==> !Matches(routes[j], Resolve(current, relativePath))
    ensures GetPageLink(Some(current), routes, relativePath, extraParams)
         == Ok(routes[i].path + Suffix(extraParams))
  {
    FirstMatchFound(routes, Resolve(current, relativePath), i);
  }

  /** When no route is built from the resolved path, the link is the resolved path itself. */
  lemma FallsBackToResolvedPath(current: string, routes: seq<Route>, relativePath: string,
                                extraParams: Option<string>)
    requires forall j :: 0 <= j < |routes| ==> !Matches(routes[j], Resolve(current, relativePath))
    ensures GetPageLink(Some(current), routes, relativePath, extraParams) == Ok(Resolve(current, relativePath))
  {
  }

  /** The result is always one of the two: a route's path with the suffix, or the resolved path. */
  lemma ResultIsPageOrPath(current: string, routes: seq<Route>, relativePath: string, extraParams: Option<string>)
    ensures var r := GetPageLink(Some(current), routes, relativePath, extraParams);
      r.Ok? &&
      ((exists i :: 0 <= i < |routes| && Matches(routes[i], Resolve(current, relativePath))
                                       && r.value == routes[i].path + Suffix(extraParams))
       || r.value == Resolve(current, relativePath))
  {
  }

  /** No two page routes are built from the same source file. */
  ghost predicate UniqueRelatives(routes: seq<Route>)
  {
    forall i, j :: 0 <= i < j < |routes| && routes[i].relative.Some? && routes[i].relative.value != "" ==>
      routes[j].relative != routes[i].relative
  }

  /** In a table with unique source files, resolving to a page's own file links to that page. */
  lemma LinksToOwnPage(current: string, routes: seq<Route>, relativePath: string,
                       extraParams: Option<string>, i: nat)
    requires UniqueRelatives(routes) && i < |routes|
    requires routes[i].relative == Some(Resolve(current, relativePath)) && Resolve(current, relativePath) != ""
    ensures GetPageLink(Some(current), routes, relativePath, extraParams)
         == Ok(routes[i].path + Suffix(extraParams))
  {
    LinksToFirstMatch(current, routes, relativePath, extraParams, i);
  }

  /** Routes without a source file never match, so adding one anywhere changes no link. */
  lemma UnlabelledRouteIgnored(current: Option<string>, routes: seq<Route>, k: nat, extra: Route,
                               relativePath: string, extraParams: Option<string>)
    requires k <= |routes| && (extra.relative.None? || extra.relative == Some(""))
    ensures GetPageLink(current, routes[..k] + [extra] + routes[k..], relativePath, extraParams)
         == GetPageLink(current, routes, relativePath, extraParams)
  {
    if current.Some? {
      InsertUnlabelled(routes, k, extra, Resolve(current.value, relativePath));
    }
  }

  /** Inserting a route that cannot match moves the first match, if any, but does not change it. */
  lemma InsertUnlabelled(routes: seq<Route>, k: nat, extra: Route, p: string)
    requires k <= |routes| && !Matches(extra, p)
    ensures var f := FindPage(routes, p);
      var g := FindPage(routes[..k] + [extra] + routes[k..], p);
      (f.None? <==> g.None?) && (f.Some? ==> (routes[..k] + [extra] + routes[k..])[g.value] == routes[f.value])
  {
    var longer := routes[..k] + [extra] + routes[k..];
    var f := FindPage(routes, p);
    var bound := if f.None? then |routes| else f.value;
    forall j | 0 <= j < bound + 1 && j < |longer| && (f.None? || j != (if bound < k then bound else bound + 1))
      ensures !Matches(longer[j], p)
    {
      if j < k {
        assert longer[j] == routes[j];
      } else if j == k {
        assert longer[j] == extra;
      } else {
        assert longer[j] == routes[j - 1];
      }
    }
    if f.Some? {
      var i' := if f.value < k then f.value else f.value + 1;
      assert longer[i'] == routes[f.value];
      FirstMatchFound(longer, p, i');
    } else {
      assert FindPage(longer, p).None?;
    }
  }

  /** A route that matches with none before it is the one the scan returns. */
  lemma FirstMatchFound(routes: seq<Route>, p: string, i: nat)
    requires i < |routes| && Matches(routes[i], p)
    requires forall j :: 0 <= j < i ==> !Matches(routes[j], p)
    ensures FindPage(routes, p) == Some(i)
  {
  }

  /**
   * A link to a plain file name from a page `dir/file` resolves to `dir/name`,
   * and gives the page built from `dir/name` if the table has one.
   */
  lemma SiblingLink(dirSegs: seq<string>, file: string, name: string, routes: seq<Route>,
                    extraParams: Option<string>)
    requires dirSegs != [] && PosixPath.Normal(dirSegs, false)
    requires PosixPath.Plain(file) && PosixPath.Plain(name)
    ensures var dir := PosixPath.JoinSegs(dirSegs);
      var target := dir + "/" + name;
      GetPageLink(Some(dir + "/" + file), routes, name, extraParams) ==
        match FindPage(routes, target)
        case Some(i) => Ok(routes[i].path + Suffix(extraParams))
        case None => Ok(target)
  {
    var dir := PosixPath.JoinSegs(dirSegs);
    PosixPath.JoinSegsEnds(dirSegs);
    assert PosixPath.SEP !in dirSegs[|dirSegs| - 1];
    assert dir[|dir| - 1] in dirSegs[|dirSegs| - 1];
    PosixPath.DirnameOfChild(dir, file);
    PosixPath.JoinPlainName(dirSegs, name);
  }

  /** From a top-level page, whose directory is `.`, a plain name resolves to itself. */
  lemma TopLevelSibling(file: string, name: string)
    requires PosixPath.Plain(file) && PosixPath.Plain(name)
    ensures PosixPath.Dirname(file) == "." && Resolve(file, name) == name
  {
    PosixPath.DirnameOfPlain(file);
    PosixPath.JoinDotName(name);
  }

  /**
   * A link to a plain name from a top-level page gives the page built from
   * that file if the table has one, and the name itself otherwise.
   */
  lemma TopLevelSiblingLink(file: string, name: string, routes: seq<Route>, extraParams: Option<string>)
    requires PosixPath.Plain(file) && PosixPath.Plain(name)
    ensures GetPageLink(Some(file), routes, name, extraParams) ==
      match FindPage(routes, name)
      case Some(i) => Ok(routes[i].path + Suffix(extraParams))
      case None => Ok(name)
  {
    TopLevelSibling(file, name);
  }

  /** Writing a link as `./name` instead of `name` makes no difference. */
  lemma DotSlashLink(current: string, name: string)
    requires PosixPath.Plain(name)
    ensures Resolve(current, "./" + name) == Resolve(current, name)
  {
    PosixPath.JoinDotSlash(PosixPath.Dirname(current), name);
  }

  /** A link `../name` from a page `dir/sub/file` resolves to `dir/name`. */
  lemma ParentLink(dirSegs: seq<string>, sub: string, file: string, name: string)
    requires PosixPath.Normal(dirSegs + [sub], false)
    requires PosixPath.Plain(sub) && PosixPath.Plain(file) && PosixPath.Plain(name)
    ensures Resolve(PosixPath.JoinSegs(dirSegs + [sub]) + "/" + file, "../" + name)
         == PosixPath.JoinSegs(dirSegs + [name])
  {
    var dirs := dirSegs + [sub];
    var dir := PosixPath.JoinSegs(dirs);
    PosixPath.JoinSegsEnds(dirs);
    assert PosixPath.SEP !in dirs[|dirs| - 1];
    assert dir[|dir| - 1] in dirs[|dirs| - 1];
    PosixPath.DirnameOfChild(dir, file);
    PosixPath.JoinParentName(dirSegs, sub, name);
    assert "../" + name == ".." + [PosixPath.SEP] + name;
  }
}
