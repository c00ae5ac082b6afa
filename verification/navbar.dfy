/** The scroll listener of static/js/scripts.js that shows and hides the
    main navigation bar.

    The bar's class list matters only through two classes, `is-fixed` and
    `is-visible`; the listener also remembers the previous scroll position
    and reads the bar's height once, when the page is loaded. */
module Navbar {

  /** What the listener keeps between scroll events. */
  datatype NavState = NavState(scrollPos: int, isFixed: bool, isVisible: bool)

  /** The state after one scroll event that finds the page scrolled by
      `currentTop` pixels. Scrolling up (`currentTop < scrollPos`) shows a
      fixed bar, except at the very top or when the bar is not fixed, where
      it is unfixed and hidden; scrolling down (or not moving) hides the bar
      and fixes it once the page is past the header. */
  function Next(s: NavState, currentTop: int, headerHeight: int): (t: NavState)
    ensures t.scrollPos == currentTop
    ensures t.isVisible ==> t.isFixed
    ensures currentTop >= s.scrollPos ==> !t.isVisible
    ensures currentTop >= s.scrollPos ==> (t.isFixed <==> s.isFixed || currentTop > headerHeight)
    ensures currentTop < s.scrollPos && currentTop > 0 && s.isFixed ==> t.isVisible && t.isFixed
    ensures currentTop < s.scrollPos && (currentTop <= 0 || !s.isFixed) ==> !t.isVisible && !t.isFixed
  {
    if currentTop < s.scrollPos then
      if currentTop > 0 && s.isFixed then s.(scrollPos := currentTop, isVisible := true)
      else NavState(currentTop, false, false)
    else
      s.(scrollPos := currentTop, isVisible := false,
         isFixed := s.isFixed || currentTop > headerHeight)
  }

  /** The state after a sequence of scroll events, oldest first. */
  function Replay(s: NavState, tops: seq<int>, headerHeight: int): NavState
    decreases |tops|
  {
    if tops == [] then s else Replay(Next(s, tops[0], headerHeight), tops[1..], headerHeight)
  }

  /** The bar is never visible without being fixed. */
  predicate Consistent(s: NavState) {
    s.isVisible ==> s.isFixed
  }

  /** After any events the bar is consistent, and the remembered position is
      that of the last event. */
  lemma {:induction false} ReplayConsistent(s: NavState, tops: seq<int>, headerHeight: int)
    requires Consistent(s)
    ensures Consistent(Replay(s, tops, headerHeight))
    ensures tops != [] ==> Replay(s, tops, headerHeight).scrollPos == tops[|tops| - 1]
    ensures tops == [] ==> Replay(s, tops, headerHeight) == s
    decreases |tops|
  {
    if tops != [] {
      ReplayConsistent(Next(s, tops[0], headerHeight), tops[1..], headerHeight);
    }
  }

  /** Scroll positions that never go up, starting from `from`. */
  predicate NeverUp(from: int, tops: seq<int>) {
    (tops != [] ==> from <= tops[0])
    && forall i, j :: 0 <= i < j < |tops| ==> tops[i] <= tops[j]
  }

  /** Some event found the page past the header. */
  predicate PassesHeader(tops: seq<int>, headerHeight: int) {
    exists i :: 0 <= i < |tops| && tops[i] > headerHeight
  }

  /** While the page only scrolls down, the bar is hidden, is never unfixed,
      and is fixed exactly when it already was or some event went past the
      header. */
  lemma {:induction false} ScrollingDown(s: NavState, tops: seq<int>, headerHeight: int)
    requires NeverUp(s.scrollPos, tops)
    ensures tops != [] ==> !Replay(s, tops, headerHeight).isVisible
    ensures Replay(s, tops, headerHeight).isFixed <==> s.isFixed || PassesHeader(tops, headerHeight)
    decreases |tops|
  {
    if tops != [] {
      var t := Next(s, tops[0], headerHeight);
      assert NeverUp(t.scrollPos, tops[1..]);
      ScrollingDown(t, tops[1..], headerHeight);
      if PassesHeader(tops[1..], headerHeight) {
        var i :| 0 <= i < |tops[1..]| && tops[1..][i] > headerHeight;
        assert tops[i + 1] > headerHeight;
      }
      if PassesHeader(tops, headerHeight) && !(tops[0] > headerHeight) {
        var i :| 0 <= i < |tops| && tops[i] > headerHeight;
        assert tops[1..][i - 1] > headerHeight;
      }
    }
  }

  /** The navigation bar element together with the listener's captured
      variables. */
  class MainNav {
    /** `mainNav.clientHeight`, read once when the page is loaded. */
    const headerHeight: int
    var scrollPos: int
    var isFixed: bool
    var isVisible: bool

    function State(): NavState
      reads this
    {
      NavState(scrollPos, isFixed, isVisible)
    }

    /** The page is loaded unscrolled and the bar carries neither class. */
    constructor (headerHeight: nat)
      ensures this.headerHeight == headerHeight
      ensures State() == NavState(0, false, false)
    {
      this.headerHeight := headerHeight;
      scrollPos := 0;
      isFixed := false;
      isVisible := false;
    }

    /** The scroll listener, run on one event. */
    method Step(currentTop: int)
      modifies this
      ensures State() == Next(old(State()), currentTop, headerHeight)
      ensures Consistent(State())
    {
      if currentTop < scrollPos {
        if currentTop > 0 && isFixed {
          isVisible := true;
        } else {
          isVisible := false;
          isFixed := false;
        }
      } else {
        isVisible := false;
        if currentTop > headerHeight && !isFixed {
          isFixed := true;
        }
      }
      scrollPos := currentTop;
    }
  }
}
