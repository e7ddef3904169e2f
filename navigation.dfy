/**
 * Navigation state of CelestiaApp: the menu display that toggleNavigation
 * writes, the breakpoints handleResize uses, and the hide-on-scroll rule
 * of the navigation bar.
 */
module Navigation {

  /** The menu's inline `display`: never written yet, 'flex' or 'none'. */
  datatype Display = Unset | Flex | Hidden

  function MenuDisplay(open: bool): (d: Display)
    ensures d != Unset
  {
    if open then Flex else Hidden
  }

  const DesktopBreakpoint := 768
  const PhoneBreakpoint := 480
  const HideThreshold := 100

  /** handleResize closes an open menu on a viewport wider than 768. */
  predicate ClosesOnResize(width: int, open: bool)
    ensures ClosesOnResize(width, open) ==> GridFor(width).columns == 4
  {
    width > DesktopBreakpoint && open
  }

  /** The countdown grid's column count and maximum width in pixels. */
  datatype Grid = Grid(columns: nat, maxWidthPx: nat)

  function GridFor(width: int): (g: Grid)
    ensures g.columns == 1 <==> width < PhoneBreakpoint
    ensures g.columns == 2 <==> PhoneBreakpoint <= width < DesktopBreakpoint
    ensures g.columns == 4 <==> DesktopBreakpoint <= width
  {
    if width < PhoneBreakpoint then Grid(1, 200)
    else if width < DesktopBreakpoint then Grid(2, 300)
    else Grid(4, 500)
  }

  /** A wider viewport never gets fewer or narrower columns. */
  lemma GridMonotone(w1: int, w2: int)
    requires w1 <= w2
    ensures GridFor(w1).columns <= GridFor(w2).columns
    ensures GridFor(w1).maxWidthPx <= GridFor(w2).maxWidthPx
  {
  }

  /** The two breakpoints disagree at exactly 768: the grid takes its
      desktop layout while an open menu stays open. */
  lemma BreakpointsDisagreeAt768()
    ensures GridFor(768).columns == 4 && !ClosesOnResize(768, true)
    ensures ClosesOnResize(769, true)
  {
  }

  /** The navigation bar after handleNavScroll: whether it is hidden, and
      the scroll offset remembered for the next event. */
  datatype Bar = Bar(hidden: bool, lastScrollTop: int)

  /** Hidden exactly when scrolling down past the threshold; the offset
      remembered is never negative. */
  function NavScroll(lastScrollTop: int, scrollTop: int): (b: Bar)
    ensures b.lastScrollTop >= 0 && b.lastScrollTop >= scrollTop
  {
    Bar(scrollTop > lastScrollTop && scrollTop > HideThreshold,
        if scrollTop <= 0 then 0 else scrollTop)
  }

  /** The bar after a sequence of scroll events. */
  function ScrollRun(b: Bar, tops: seq<int>): Bar
    decreases |tops|
  {
    if tops == [] then b else ScrollRun(NavScroll(b.lastScrollTop, tops[0]), tops[1..])
  }

  /** After a non-empty run the bar reflects only the last two events: it
      is hidden iff the last offset passed the threshold and exceeded the
      one before it (clamped at 0), and the last offset is remembered. */
  lemma {:induction false} ScrollRunLastStep(b: Bar, tops: seq<int>)
    requires |tops| >= 2
    ensures var last := tops[|tops| - 1];
      var before := if tops[|tops| - 2] <= 0 then 0 else tops[|tops| - 2];
      ScrollRun(b, tops) == Bar(last > before && last > HideThreshold, if last <= 0 then 0 else last)
    decreases |tops|
  {
    var rest := tops[1..];
    var b1 := NavScroll(b.lastScrollTop, tops[0]);
    assert ScrollRun(b, tops) == ScrollRun(b1, rest);
    if |tops| > 2 {
      assert rest[|rest| - 1] == tops[|tops| - 1] && rest[|rest| - 2] == tops[|tops| - 2];
      ScrollRunLastStep(b1, rest);
    } else {
      assert rest[1..] == [];
      assert ScrollRun(b1, rest) == NavScroll(b1.lastScrollTop, tops[1]);
    }
  }

  /** An event at the offset already reached never hides the bar, so the
      bar shows again as soon as scrolling stops. */
  lemma StillScrollShows(last: int, scrollTop: int)
    ensures !NavScroll(NavScroll(last, scrollTop).lastScrollTop, scrollTop).hidden
  {
  }
}
