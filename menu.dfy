/**
 * The mobile navigation menu (`initMobileMenu` in app.js, and the branch of
 * `initSmoothScroll` that closes the menu after an in-page link is followed).
 *
 * The menu element is open when it lacks the `hidden` class; the handlers
 * also maintain an `open` class and rotate the menu button's icon (90 degrees
 * for open, 0 for closed) when the button contains one. The handlers exist
 * only when both the button and the menu are on the page, which this model
 * takes as given.
 */
module MobileMenu {

  /** Windows at least this wide count as desktop, where the menu is closed. */
  const DesktopWidth: int := 768
  /** Icon rotation, in degrees, while the menu is open and while it is closed. */
  const OpenDeg: int := 90
  const ClosedDeg: int := 0

  /** The observable state: the two classes of the menu element and the icon's rotation. */
  datatype Menu = Menu(hidden: bool, openClass: bool, iconDeg: int)

  /** The script treats the menu as open exactly when it is not hidden. */
  predicate IsOpen(m: Menu)
  {
    !m.hidden
  }

  /** The two classes agree with each other and, when there is an icon, so does its rotation. */
  predicate Consistent(m: Menu, hasIcon: bool)
  {
    m.openClass == IsOpen(m) && (hasIcon ==> m.iconDeg == if IsOpen(m) then OpenDeg else ClosedDeg)
  }

  /** Where a click on the page lands. */
  datatype ClickTarget = MenuButton | InsideMenu | Elsewhere

  /** The menu button's handler: opens a closed menu and closes an open one, turning the icon to match. */
  function ButtonClicked(m: Menu, hasIcon: bool): (r: Menu)
    ensures IsOpen(r) == !IsOpen(m)
    ensures r.openClass == IsOpen(r)
    ensures r.iconDeg == if hasIcon then (if IsOpen(r) then OpenDeg else ClosedDeg) else m.iconDeg
    ensures Consistent(r, hasIcon)
  {
    var wasOpen := !m.hidden;
    var icon := if !hasIcon then m.iconDeg else if !wasOpen then OpenDeg else ClosedDeg;
    Menu(wasOpen, !wasOpen, icon)
  }

  /** What every closing path does: hide the menu, drop `open`, and turn the icon back. */
  function Closed(m: Menu, hasIcon: bool): (r: Menu)
    ensures !IsOpen(r) && !r.openClass
    ensures r.iconDeg == if hasIcon then ClosedDeg else m.iconDeg
    ensures Consistent(r, hasIcon)
  {
    Menu(true, false, if hasIcon then ClosedDeg else m.iconDeg)
  }

  /**
   * A click anywhere. A click on the button toggles the menu and stops
   * there (its handler stops propagation); a click inside the menu leaves
   * it alone; any other click closes it.
   */
  function Clicked(m: Menu, hasIcon: bool, target: ClickTarget): (r: Menu)
    ensures target == MenuButton ==> IsOpen(r) == !IsOpen(m)
    ensures target == InsideMenu ==> r == m
    ensures target == Elsewhere ==> !IsOpen(r) && !r.openClass
  {
    match target
    case MenuButton => ButtonClicked(m, hasIcon)
    case InsideMenu => m
    case Elsewhere => Closed(m, hasIcon)
  }

  /** A resize closes the menu when the window is at least desktop width. */
  function Resized(m: Menu, hasIcon: bool, innerWidth: int): (r: Menu)
    ensures innerWidth >= DesktopWidth ==> !IsOpen(r) && !r.openClass
    ensures innerWidth < DesktopWidth ==> r == m
  {
    if innerWidth >= DesktopWidth then Closed(m, hasIcon) else m
  }

  /** Following an in-page link whose target exists closes the menu if it is open. */
  function LinkFollowed(m: Menu, hasIcon: bool, targetExists: bool): (r: Menu)
    ensures targetExists ==> !IsOpen(r)
    ensures !targetExists || !IsOpen(m) ==> r == m
  {
    if targetExists && !m.hidden then Closed(m, hasIcon) else m
  }

  /**
   * A click on an in-page link: the link's own handler runs first, then the
   * click reaches the document, where it counts as inside the menu or not.
   */
  function LinkClicked(m: Menu, hasIcon: bool, targetExists: bool, linkInMenu: bool): (r: Menu)
    ensures targetExists || !linkInMenu ==> !IsOpen(r)
    ensures !targetExists && linkInMenu ==> r == m
  {
    Clicked(LinkFollowed(m, hasIcon, targetExists), hasIcon, if linkInMenu then InsideMenu else Elsewhere)
  }

  /** Two clicks on the button give back a consistent menu unchanged. */
  lemma ButtonClickedTwice(m: Menu, hasIcon: bool)
    requires Consistent(m, hasIcon)
    ensures ButtonClicked(ButtonClicked(m, hasIcon), hasIcon) == m
  {
  }

  /** Every handler keeps the classes and the icon in agreement. */
  lemma HandlersKeepConsistent(m: Menu, hasIcon: bool, target: ClickTarget, innerWidth: int,
                               targetExists: bool, linkInMenu: bool)
    requires Consistent(m, hasIcon)
    ensures Consistent(Clicked(m, hasIcon, target), hasIcon)
    ensures Consistent(Resized(m, hasIcon, innerWidth), hasIcon)
    ensures Consistent(LinkFollowed(m, hasIcon, targetExists), hasIcon)
    ensures Consistent(LinkClicked(m, hasIcon, targetExists, linkInMenu), hasIcon)
  {
  }

  /**
   * The closing paths never open the menu: an outside click, a resize to
   * desktop width and following an existing link leave it closed with the
   * icon at 0 degrees, and a click inside the menu or a narrower resize
   * leave a closed menu closed.
   */
  lemma ClosingPathsClose(m: Menu, hasIcon: bool, innerWidth: int, targetExists: bool, linkInMenu: bool)
    requires Consistent(m, hasIcon)
    ensures var r := Clicked(m, hasIcon, Elsewhere); !IsOpen(r) && (hasIcon ==> r.iconDeg == ClosedDeg)
    ensures innerWidth >= DesktopWidth ==>
              var r := Resized(m, hasIcon, innerWidth); !IsOpen(r) && (hasIcon ==> r.iconDeg == ClosedDeg)
    ensures targetExists ==>
              var r := LinkFollowed(m, hasIcon, targetExists); !IsOpen(r) && (hasIcon ==> r.iconDeg == ClosedDeg)
    ensures targetExists || !linkInMenu ==> !IsOpen(LinkClicked(m, hasIcon, targetExists, linkInMenu))
    ensures !IsOpen(m) ==>
              && !IsOpen(Clicked(m, hasIcon, InsideMenu))
              && !IsOpen(Clicked(m, hasIcon, Elsewhere))
              && !IsOpen(Resized(m, hasIcon, innerWidth))
              && !IsOpen(LinkFollowed(m, hasIcon, targetExists))
              && !IsOpen(LinkClicked(m, hasIcon, targetExists, linkInMenu))
  {
  }

  /** Applying a closing path twice is the same as applying it once. */
  lemma ClosingPathsIdempotent(m: Menu, hasIcon: bool, innerWidth: int, targetExists: bool)
    ensures Clicked(Clicked(m, hasIcon, Elsewhere), hasIcon, Elsewhere) == Clicked(m, hasIcon, Elsewhere)
    ensures Resized(Resized(m, hasIcon, innerWidth), hasIcon, innerWidth) == Resized(m, hasIcon, innerWidth)
    ensures LinkFollowed(LinkFollowed(m, hasIcon, targetExists), hasIcon, targetExists)
            == LinkFollowed(m, hasIcon, targetExists)
  {
  }

  /** The menu element, its button's icon, and the handlers registered on them. */
  class MenuWidget {
    var hidden: bool
    var openClass: bool
    var iconDeg: int
    /** Whether the button contains an svg icon. */
    const hasIcon: bool

    function State(): Menu
      reads this
    {
      Menu(hidden, openClass, iconDeg)
    }

    constructor (initial: Menu, hasIcon: bool)
      ensures State() == initial && this.hasIcon == hasIcon
    {
      hidden := initial.hidden;
      openClass := initial.openClass;
      iconDeg := initial.iconDeg;
      this.hasIcon := hasIcon;
    }

    /** Hides the menu and turns the icon back; the steps every closing path performs. */
    method Close()
      modifies this
      ensures State() == Closed(old(State()), hasIcon)
    {
      hidden := true;
      openClass := false;
      if hasIcon {
        iconDeg := ClosedDeg;
      }
    }

    /** A click on the page, delivered to the button's handler or to the document's. */
    method Click(target: ClickTarget)
      modifies this
      ensures State() == Clicked(old(State()), hasIcon, target)
    {
      match target
      case MenuButton =>
        var isOpen := !hidden;
        if isOpen {
          hidden := true;
          openClass := false;
        } else {
          hidden := false;
          openClass := true;
        }
        if hasIcon {
          if !isOpen {
            iconDeg := OpenDeg;
          } else {
            iconDeg := ClosedDeg;
          }
        }
      case InsideMenu =>
      case Elsewhere =>
        Close();
    }

    /** The window was resized to `innerWidth` pixels. */
    method Resize(innerWidth: int)
      modifies this
      ensures State() == Resized(old(State()), hasIcon, innerWidth)
    {
      if innerWidth >= DesktopWidth {
        Close();
      }
    }

    /** An in-page link was followed; `targetExists` says whether its target element is on the page. */
    method FollowLink(targetExists: bool)
      modifies this
      ensures State() == LinkFollowed(old(State()), hasIcon, targetExists)
    {
      if targetExists && !hidden {
        Close();
      }
    }
  }
}
