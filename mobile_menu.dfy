/**
 * Mobile navigation menu (assets/js/modules/mobileMenu.js).
 *
 * The closure state of `initMobileMenu` becomes a class: the `isMenuOpen`
 * flag, the DOM mirrors that `toggleMenu` keeps in step with it, the
 * element holding keyboard focus, and the focus-trap handler that is
 * registered on the document and remembered on the nav container.
 */
module MobileMenu {
  import opened Wrappers

  /** The element that has keyboard focus. */
  datatype Target = MenuButton | NavElement(index: nat) | Elsewhere

  /** A focus trap: the first and last focusable element of the nav container. */
  datatype Trap = Trap(first: Target, last: Target)

  const Breakpoint := 768
  const OpenLabel := "باز کردن منوی موبایل"
  const CloseLabel := "بستن منوی موبایل"

  /** `aria-label` of the menu button for a given state. */
  function Label(open: bool): (l: string)
    ensures l == CloseLabel <==> open
  {
    if open then CloseLabel else OpenLabel
  }

  /** Text of the menu icon for a given state. */
  function Icon(open: bool): (i: string)
    ensures i == "close" <==> open
    ensures i == "menu" <==> !open
  {
    if open then "close" else "menu"
  }

  /** `isMenuOpen.toString()` */
  function BoolString(b: bool): (s: string)
    ensures s == "true" <==> b
    ensures s == "false" <==> !b
  {
    if b then "true" else "false"
  }

  /** The trap `setupFocusTrap` installs: none when the container has no focusable element. */
  function TrapFor(focusables: seq<Target>): (t: Option<Trap>)
    ensures t.Some? <==> |focusables| > 0
    ensures t.Some? ==> t.value.first == focusables[0] && t.value.last == focusables[|focusables| - 1]
  {
    if |focusables| == 0 then None
    else Some(Trap(focusables[0], focusables[|focusables| - 1]))
  }

  /**
   * `trapFocus`: the element to move focus to, or `None` to leave focus
   * where it is (and the key's default action alone). Only Tab counts;
   * Tab on the last element goes to the menu button; Shift+Tab on the
   * first element or on the button goes to the last element.
   */
  function TrapDecision(trap: Trap, key: string, shift: bool, active: Target): (r: Option<Target>)
    ensures key != "Tab" ==> r == None
    ensures key == "Tab" && !shift ==> (r.Some? <==> active == trap.last)
    ensures key == "Tab" && shift ==> (r.Some? <==> active == trap.first || active == MenuButton)
    ensures r.Some? ==> r.value == if shift then trap.last else MenuButton
  {
    if key != "Tab" then None
    else if shift then
      if active == trap.first || active == MenuButton then Some(trap.last) else None
    else
      if active == trap.last then Some(MenuButton) else None
  }

  /** Tab then Shift+Tab from the last element of a trap comes back to it. */
  lemma TrapRoundTrip(trap: Trap)
    ensures var toButton := TrapDecision(trap, "Tab", false, trap.last);
            toButton == Some(MenuButton) && TrapDecision(trap, "Tab", true, toButton.value) == Some(trap.last)
  {
  }

  class MenuController {
    /** `initMobileMenu` found both the menu button and the nav container and wired its listeners */
    const wired: bool
    /** the header exists (`header?.classList`) */
    const hasHeader: bool
    /** the button holds a `.material-symbols-outlined` icon */
    const hasIcon: bool
    /** the first anchor of the nav container, if any */
    const firstLink: Option<Target>
    /** the nav container's focusable elements, in document order */
    const focusables: seq<Target>

    var isMenuOpen: bool
    /** the nav container's `active` class */
    var navActive: bool
    /** the header's `menu-open` class */
    var headerMenuOpen: bool
    var ariaExpanded: Option<string>
    var ariaLabel: Option<string>
    /** text of the icon */
    var icon: Option<string>
    /** `document.activeElement` */
    var focus: Target
    /** `navLinks._trapFocusHandler` */
    var storedTrap: Option<Trap>
    /** the focus-trap listeners registered for `keydown` on the document */
    var keydownTraps: seq<Trap>

    /**
     * The only trap listener on the document is the one remembered on the
     * nav container, and there is one only while the menu is open.
     */
    ghost predicate Valid()
      reads this
    {
      && TrapListenersAgree()
      && (storedTrap.Some? ==> wired && isMenuOpen && storedTrap == TrapFor(focusables))
    }

    /** The document's trap listeners are exactly the remembered trap. */
    ghost predicate TrapListenersAgree()
      reads this
    {
      keydownTraps == (if storedTrap.Some? then [storedTrap.value] else [])
    }

    /** The button's ARIA state, label and icon agree with `isMenuOpen`. */
    ghost predicate AriaMirrors()
      reads this
    {
      && ariaExpanded == Some(BoolString(isMenuOpen))
      && ariaLabel == Some(Label(isMenuOpen))
      && (hasIcon ==> icon == Some(Icon(isMenuOpen)))
    }

    /** Every field but `focus` keeps its value from the earlier state. */
    twostate predicate OnlyFocusMoved()
      reads this
    {
      && isMenuOpen == old(isMenuOpen) && navActive == old(navActive)
      && headerMenuOpen == old(headerMenuOpen)
      && ariaExpanded == old(ariaExpanded) && ariaLabel == old(ariaLabel) && icon == old(icon)
      && storedTrap == old(storedTrap) && keydownTraps == old(keydownTraps)
    }

    /**
     * `initMobileMenu` on a page: it attaches listeners only when both the
     * button and the nav container exist, starts closed, and changes no
     * element of the page.
     */
    constructor (hasButton: bool, hasNav: bool, hasHeader: bool, hasIcon: bool,
                 firstLink: Option<Target>, focusables: seq<Target>,
                 navActive: bool, headerMenuOpen: bool,
                 ariaExpanded: Option<string>, ariaLabel: Option<string>, icon: Option<string>,
                 focus: Target)
      ensures Valid()
      ensures wired == (hasButton && hasNav) && !isMenuOpen
      ensures this.hasHeader == hasHeader && this.hasIcon == hasIcon
      ensures this.firstLink == firstLink && this.focusables == focusables
      ensures this.navActive == navActive && this.headerMenuOpen == headerMenuOpen
      ensures this.ariaExpanded == ariaExpanded && this.ariaLabel == ariaLabel && this.icon == icon
      ensures this.focus == focus
      ensures storedTrap == None && keydownTraps == []
    {
      wired := hasButton && hasNav;
      this.hasHeader := hasHeader;
      this.hasIcon := hasIcon;
      this.firstLink := firstLink;
      this.focusables := focusables;
      isMenuOpen := false;
      this.navActive := navActive;
      this.headerMenuOpen := headerMenuOpen;
      this.ariaExpanded := ariaExpanded;
      this.ariaLabel := ariaLabel;
      this.icon := icon;
      this.focus := focus;
      storedTrap := None;
      keydownTraps := [];
    }

    /** `setupFocusTrap`: registers and remembers a trap unless the container has nothing focusable. */
    method SetupFocusTrap()
      requires wired && isMenuOpen && storedTrap == None && keydownTraps == []
      modifies this`storedTrap, this`keydownTraps
      ensures Valid()
      ensures storedTrap == TrapFor(focusables)
    {
      var trap := TrapFor(focusables);
      if trap.None? {
        return;
      }
      keydownTraps := keydownTraps + [trap.value];
      storedTrap := trap;
    }

    /** `removeFocusTrap`: unregisters and forgets the remembered trap, if any. */
    method RemoveFocusTrap()
      requires TrapListenersAgree()
      modifies this`storedTrap, this`keydownTraps
      ensures storedTrap == None && keydownTraps == []
    {
      if storedTrap.Some? {
        assert keydownTraps[1..] == [];
        assert RemoveListener(keydownTraps[1..], storedTrap.value) == [];
        keydownTraps := RemoveListener(keydownTraps, storedTrap.value);
        storedTrap := None;
      }
    }

    /**
     * `toggleMenu`: negates `isMenuOpen`, flips the nav's `active` class and
     * the header's `menu-open` class, sets the button's mirrors to the new
     * state, and on opening focuses the first link and installs the trap,
     * on closing removes it.
     */
    method ToggleMenu()
      requires Valid() && wired
      modifies this
      ensures Valid() && AriaMirrors()
      ensures isMenuOpen == !old(isMenuOpen)
      ensures navActive == !old(navActive)
      ensures headerMenuOpen == (if hasHeader then !old(headerMenuOpen) else old(headerMenuOpen))
      ensures !hasIcon ==> icon == old(icon)
      ensures focus == (if isMenuOpen && firstLink.Some? then firstLink.value else old(focus))
      ensures storedTrap == (if isMenuOpen then TrapFor(focusables) else None)
    {
      isMenuOpen := !isMenuOpen;
      navActive := !navActive;
      if hasHeader {
        headerMenuOpen := !headerMenuOpen;
      }
      ariaExpanded := Some(BoolString(isMenuOpen));
      ariaLabel := Some(Label(isMenuOpen));
      if hasIcon {
        icon := Some(Icon(isMenuOpen));
      }
      if isMenuOpen {
        if firstLink.Some? {
          focus := firstLink.value;
        }
        SetupFocusTrap();
      } else {
        RemoveFocusTrap();
      }
    }

    /** `closeMenu`: nothing when closed; when open, toggles closed and focuses the menu button. */
    method CloseMenu()
      requires Valid() && wired
      modifies this
      ensures Valid()
      ensures !old(isMenuOpen) ==> unchanged(this)
      ensures old(isMenuOpen) ==> Closed(old(navActive), old(headerMenuOpen), old(icon))
    {
      if isMenuOpen {
        ToggleMenu();
        focus := MenuButton;
      }
    }

    /**
     * The state `closeMenu` leaves an open menu in, given the class and
     * icon values it had while open.
     */
    ghost predicate Closed(navWas: bool, headerWas: bool, iconWas: Option<string>)
      reads this
    {
      && !isMenuOpen && AriaMirrors()
      && navActive == !navWas
      && headerMenuOpen == (if hasHeader then !headerWas else headerWas)
      && (!hasIcon ==> icon == iconWas)
      && focus == MenuButton
      && storedTrap == None && keydownTraps == []
    }

    /**
     * A click: first the button's own listener (when the click is on the
     * button), then the document's listener, which closes an open menu
     * when the click is outside both the nav container and the button.
     */
    method Click(inNav: bool, inButton: bool)
      requires Valid()
      modifies this
      ensures Valid()
      ensures !wired ==> unchanged(this)
      ensures wired && inButton ==>
        && isMenuOpen == !old(isMenuOpen) && navActive == !old(navActive) && AriaMirrors()
        && headerMenuOpen == (if hasHeader then !old(headerMenuOpen) else old(headerMenuOpen))
        && (!hasIcon ==> icon == old(icon))
        && focus == (if isMenuOpen && firstLink.Some? then firstLink.value else old(focus))
        && storedTrap == (if isMenuOpen then TrapFor(focusables) else None)
      ensures wired && !inButton && old(isMenuOpen) && !inNav ==> Closed(old(navActive), old(headerMenuOpen), old(icon))
      ensures !inButton && (!old(isMenuOpen) || inNav) ==> unchanged(this)
      ensures old(AriaMirrors()) ==> AriaMirrors()
      ensures (navActive == isMenuOpen) == old(navActive == isMenuOpen)
    {
      if !wired {
        return;
      }
      if inButton {
        ToggleMenu();
      }
      if isMenuOpen && !inNav && !inButton {
        CloseMenu();
      }
    }

    /**
     * A key press: the Escape listener (registered first) closes an open
     * menu; then the trap listener, if one is registered, may move focus.
     */
    method KeyDown(key: string, shift: bool)
      requires Valid()
      modifies this
      ensures Valid()
      ensures !wired ==> unchanged(this)
      ensures wired && key == "Escape" && old(isMenuOpen) ==> Closed(old(navActive), old(headerMenuOpen), old(icon))
      ensures key != "Escape" ==> isMenuOpen == old(isMenuOpen) && navActive == old(navActive)
      ensures key != "Tab" && (key != "Escape" || !old(isMenuOpen)) ==> unchanged(this)
      ensures key == "Tab" ==> OnlyFocusMoved()
      ensures key == "Tab" ==>
        focus == (if old(storedTrap).Some? && TrapDecision(old(storedTrap).value, key, shift, old(focus)).Some?
                  then TrapDecision(old(storedTrap).value, key, shift, old(focus)).value
                  else old(focus))
      ensures old(AriaMirrors()) ==> AriaMirrors()
      ensures (navActive == isMenuOpen) == old(navActive == isMenuOpen)
    {
      if !wired {
        return;
      }
      if key == "Escape" && isMenuOpen {
        CloseMenu();
      }
      label Dispatching:
      var i := 0;
      while i < |keydownTraps|
        invariant 0 <= i <= |keydownTraps|
        invariant Valid()
        invariant key != "Tab" ==> unchanged@Dispatching(this)
        invariant key != "Escape" ==> isMenuOpen == old(isMenuOpen) && navActive == old(navActive)
        invariant key != "Escape" && key != "Tab" ==> unchanged(this)
        invariant key == "Tab" ==> OnlyFocusMoved()
        invariant key == "Tab" && i == 0 ==> focus == old(focus)
        invariant key == "Tab" && i > 0 ==>
          focus == (if TrapDecision(old(storedTrap).value, key, shift, old(focus)).Some?
                    then TrapDecision(old(storedTrap).value, key, shift, old(focus)).value
                    else old(focus))
        invariant old(AriaMirrors()) ==> AriaMirrors()
        invariant (navActive == isMenuOpen) == old(navActive == isMenuOpen)
        decreases |keydownTraps| - i
      {
        var next := TrapDecision(keydownTraps[i], key, shift, focus);
        if next.Some? {
          focus := next.value;
        }
        i := i + 1;
      }
    }

    /** A resize: widening past the breakpoint closes an open menu. */
    method Resize(innerWidth: int)
      requires Valid()
      modifies this
      ensures Valid()
      ensures !wired || innerWidth <= Breakpoint || !old(isMenuOpen) ==> unchanged(this)
      ensures wired && innerWidth > Breakpoint && old(isMenuOpen) ==> Closed(old(navActive), old(headerMenuOpen), old(icon))
      ensures old(AriaMirrors()) ==> AriaMirrors()
      ensures (navActive == isMenuOpen) == old(navActive == isMenuOpen)
    {
      if !wired {
        return;
      }
      if innerWidth > Breakpoint && isMenuOpen {
        CloseMenu();
      }
    }
  }

  /** `removeEventListener`: drops every registration of that handler. */
  function RemoveListener(listeners: seq<Trap>, handler: Trap): (r: seq<Trap>)
    ensures handler !in r
    ensures forall t :: t in r <==> t in listeners && t != handler
    decreases |listeners|
  {
    if listeners == [] then []
    else if listeners[0] == handler then RemoveListener(listeners[1..], handler)
    else [listeners[0]] + RemoveListener(listeners[1..], handler)
  }
}
