/**
 * The router's scroll-restoration rule: where the window scrolls after a
 * navigation.
 */
module Scroll {
  import opened Wrappers

  /** A scroll offset, as the router saves it for back/forward navigation. */
  datatype Point = Point(x: int, y: int)

  /** What the rule returns to the router. */
  datatype ScrollTarget =
    | Offset(point: Point)       // `{x, y}`
    | Selector(selector: string) // `{selector}`: the element the hash names

  /** The part of a route the rule looks at; `hash` is "" when the URL has no fragment. */
  datatype Location = Location(path: string, hash: string)

  const ORIGIN := Point(0, 0)

  /**
   * `scrollBehavior(to, from, savedPosition)`. A saved position is an object
   * and therefore always truthy; a hash is truthy exactly when it is not "".
   */
  function ScrollBehavior(to: Location, from: Location, savedPosition: Option<Point>): (r: ScrollTarget)
    ensures savedPosition.Some? ==> r == Offset(savedPosition.value)
    ensures savedPosition.None? && to.hash != "" ==> r == Selector(to.hash)
    ensures savedPosition.None? && to.hash == "" ==> r == Offset(ORIGIN)
  {
    if savedPosition.Some? then Offset(savedPosition.value)
    else if to.hash != "" then Selector(to.hash)
    else Offset(ORIGIN)
  }

  /** The saved position wins whatever the target and the origin of the navigation are. */
  lemma SavedPositionWins(to1: Location, from1: Location, to2: Location, from2: Location, p: Point)
    ensures ScrollBehavior(to1, from1, Some(p)) == ScrollBehavior(to2, from2, Some(p)) == Offset(p)
  {
  }

  /** The page where the navigation started never influences the result. */
  lemma IgnoresFrom(to: Location, from1: Location, from2: Location, saved: Option<Point>)
    ensures ScrollBehavior(to, from1, saved) == ScrollBehavior(to, from2, saved)
  {
  }

  /** A selector is returned exactly when nothing is saved and the target has a hash, and it is that hash. */
  lemma SelectorExactlyForHash(to: Location, from: Location, saved: Option<Point>)
    ensures ScrollBehavior(to, from, saved).Selector? <==> saved.None? && to.hash != ""
    ensures ScrollBehavior(to, from, saved).Selector? ==> ScrollBehavior(to, from, saved).selector == to.hash
  {
  }

  /**
   * The origin is returned when nothing is saved and there is no hash, and
   * otherwise only when the saved position happens to be the origin.
   */
  lemma OriginExactlyWhenNothingElse(to: Location, from: Location, saved: Option<Point>)
    ensures ScrollBehavior(to, from, saved) == Offset(ORIGIN) <==>
              (saved.None? && to.hash == "") || saved == Some(ORIGIN)
  {
  }
}
