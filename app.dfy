/**
 * CelestiaApp, the landing-page controller: its state fields and the
 * handlers that update them. Presentation effects (inline styles, class
 * toggles, injected markup, focus) are not part of the state; what the
 * handlers decide is.
 */
module App {
  import opened Common
  import opened Text
  import Countdown
  import Forms
  import Navigation

  /** A form's submit button: the two properties the submission handlers
      change. */
  class SubmitButton {
    var disabled: bool
    var text: string

    constructor (text: string)
      ensures !disabled && this.text == text
    {
      disabled := false;
      this.text := text;
    }
  }

  datatype ButtonState = ButtonState(disabled: bool, text: string)

  /** The simulated backend (simulateSubscription, simulateContactSubmission):
      whether the call resolves or rejects is left open. */
  method CallBackend() returns (ok: bool)
  {
    ok :| true;
  }

  class CelestiaApp {
    /** The launch instant in epoch milliseconds. */
    const targetDate: int
    /** Which DOM elements initializeDOMElements found. */
    const hasModal: bool
    const hasNavMenu: bool
    const hasNav: bool
    const hasCountdownGrid: bool

    var isModalOpen: bool
    var isNavOpen: bool
    var scrollPosition: int
    var isCountdownComplete: bool
    /** Whether countdownInterval holds a running interval. */
    var intervalActive: bool
    /** The text of the countdown digit slots that exist. */
    var slots: map<Countdown.Unit, string>
    var menuDisplay: Navigation.Display
    var grid: Option<Navigation.Grid>
    var navHidden: bool
    /** The closure variables of handleNavScroll. */
    var lastScrollTop: int
    var ticking: bool

    /** The controller's invariant, which every handler keeps: only an
        existing modal is open, a menu display once written shows the menu
        iff it is open, and the remembered scroll offset is not negative. */
    ghost predicate Valid()
      reads this
    {
      (isModalOpen ==> hasModal)
      && (menuDisplay != Navigation.Unset ==> hasNavMenu && menuDisplay == Navigation.MenuDisplay(isNavOpen))
      && lastScrollTop >= 0
    }

    function Ticker(): Countdown.Ticker
      reads this
    {
      Countdown.Ticker(isCountdownComplete, intervalActive, slots)
    }

    /** What the launch is meant to establish: a set latch has stopped the
        interval. The corrected start establishes it and every tick keeps
        it; the source's own start breaks it on a late page load. */
    ghost predicate LatchStopsInterval()
      reads this
    {
      Countdown.LatchStopsInterval(Ticker())
    }

    constructor (targetDate: int, hasModal: bool, hasNavMenu: bool, hasNav: bool, hasCountdownGrid: bool,
                 slots: map<Countdown.Unit, string>)
      ensures Valid() && LatchStopsInterval()
      ensures this.targetDate == targetDate && this.slots == slots
      ensures this.hasModal == hasModal && this.hasNavMenu == hasNavMenu
      ensures this.hasNav == hasNav && this.hasCountdownGrid == hasCountdownGrid
      ensures !isModalOpen && !isNavOpen && scrollPosition == 0
      ensures !isCountdownComplete && !intervalActive
      ensures menuDisplay == Navigation.Unset && grid == None
      ensures !navHidden && lastScrollTop == 0 && !ticking
    {
      this.targetDate := targetDate;
      this.hasModal := hasModal;
      this.hasNavMenu := hasNavMenu;
      this.hasNav := hasNav;
      this.hasCountdownGrid := hasCountdownGrid;
      this.slots := slots;
      isModalOpen, isNavOpen, scrollPosition := false, false, 0;
      isCountdownComplete, intervalActive := false, false;
      menuDisplay, grid := Navigation.Unset, None;
      navHidden, lastScrollTop, ticking := false, 0, false;
    }

    // ------------------------------------------------------------ countdown

    /** animateCountdownValue: rewrite a present slot with the padded value
        only when the number it shows differs. */
    method AnimateCountdownValue(u: Countdown.Unit, v: nat)
      modifies this`slots
      ensures old(Valid()) ==> Valid()
      ensures slots == Countdown.Animate(old(slots), u, v)
    {
      if u in slots {
        var current := ParseIntOrZero(slots[u]);
        if current != v {
          slots := slots[u := Padded(v)];
        }
      }
    }

    /** handleCountdownComplete: set the latch and clear the interval. */
    method HandleCountdownComplete()
      modifies this`isCountdownComplete, this`intervalActive
      ensures old(Valid()) ==> Valid()
      ensures isCountdownComplete && !intervalActive && LatchStopsInterval()
    {
      isCountdownComplete := true;
      if intervalActive {
        intervalActive := false;
      }
    }

    /** updateCountdown, run at clock reading `now`. */
    method UpdateCountdown(now: int) returns (launched: bool)
      modifies this`isCountdownComplete, this`intervalActive, this`slots
      ensures old(Valid()) ==> Valid()
      ensures old(LatchStopsInterval()) ==> LatchStopsInterval()
      ensures Ticker() == Countdown.Tick(old(Ticker()), targetDate, now)
      ensures launched == Countdown.Launches(old(Ticker()), targetDate, now)
    {
      var distance := targetDate - now;
      ghost var before := old(Ticker());
      ghost var after := Countdown.Tick(before, targetDate, now);
      Countdown.TickCases(before, targetDate, now);
      launched := false;
      if distance < 0 && !isCountdownComplete {
        HandleCountdownComplete();
        launched := true;
        assert Ticker() == Countdown.Launch(before) == after;
      } else if distance >= 0 {
        var p := Countdown.Decompose(distance);
        RenderParts(p);
        assert p == Countdown.Decompose(targetDate - now);
        assert after == before.(slots := Countdown.Render(before.slots, p));
        assert Ticker() == before.(slots := Countdown.Render(before.slots, p)) == after;
      } else {
        assert Ticker() == before == after;
      }
    }

    /** The four animateCountdownValue calls of a tick, in order. */
    method RenderParts(p: Countdown.Parts)
      modifies this`slots
      ensures old(Valid()) ==> Valid()
      ensures slots == Countdown.Render(old(slots), p)
    {
      AnimateCountdownValue(Countdown.Days, p.days);
      AnimateCountdownValue(Countdown.Hours, p.hours);
      AnimateCountdownValue(Countdown.Minutes, p.minutes);
      AnimateCountdownValue(Countdown.Seconds, p.seconds);
    }

    /** startCountdown, with the interval installed before the first tick so
        that a launch on that tick clears it (see Countdown.Start). */
    method StartCountdown(now: int)
      requires Valid() && !isCountdownComplete
      modifies this`isCountdownComplete, this`intervalActive, this`slots
      ensures Valid() && LatchStopsInterval()
      ensures Ticker() == Countdown.Start(old(Ticker()), targetDate, now)
      ensures intervalActive <==> !isCountdownComplete
    {
      intervalActive := true;
      var _ := UpdateCountdown(now);
    }

    /** startCountdown in the source's order: the first tick runs before the
        interval is installed. A page loaded after the launch instant ends
        with the latch set and the interval running, which breaks
        LatchStopsInterval; see Countdown.StartAsWrittenLeavesIntervalRunning. */
    method StartCountdownAsWritten(now: int)
      modifies this`isCountdownComplete, this`intervalActive, this`slots
      ensures old(Valid()) ==> Valid()
      ensures Ticker() == Countdown.StartAsWritten(old(Ticker()), targetDate, now)
      ensures intervalActive
    {
      var _ := UpdateCountdown(now);
      intervalActive := true;
    }

    /** destroy: clear the interval. */
    method Destroy()
      requires Valid()
      modifies this`intervalActive
      ensures Valid() && !intervalActive && LatchStopsInterval()
    {
      intervalActive := false;
    }

    // ---------------------------------------------------------------- modal

    /** openModal at page offset `pageYOffset`; a no-op without a modal. */
    method OpenModal(pageYOffset: int)
      requires Valid()
      modifies this`isModalOpen, this`scrollPosition
      ensures Valid()
      ensures hasModal ==> isModalOpen && scrollPosition == pageYOffset
      ensures !hasModal ==> isModalOpen == old(isModalOpen) && scrollPosition == old(scrollPosition)
    {
      if !hasModal {
        return;
      }
      isModalOpen := true;
      scrollPosition := pageYOffset;
    }

    /** closeModal: returns the offset window.scrollTo is asked for, None
        when there is no modal and nothing happens. */
    method CloseModal() returns (scrollTo: Option<int>)
      requires Valid()
      modifies this`isModalOpen
      ensures Valid()
      ensures hasModal ==> !isModalOpen && scrollTo == Some(scrollPosition)
      ensures !hasModal ==> isModalOpen == old(isModalOpen) && scrollTo == None
    {
      if !hasModal {
        return None;
      }
      isModalOpen := false;
      scrollTo := Some(scrollPosition);
    }

    /** The keydown listener: Escape closes the modal only while it is open. */
    method HandleKeyDown(key: string) returns (scrollTo: Option<int>)
      requires Valid()
      modifies this`isModalOpen
      ensures Valid()
      ensures key == "Escape" && old(isModalOpen) ==> !isModalOpen && scrollTo == Some(scrollPosition)
      ensures !(key == "Escape" && old(isModalOpen)) ==> isModalOpen == old(isModalOpen) && scrollTo == None
    {
      scrollTo := None;
      if key == "Escape" && isModalOpen {
        scrollTo := CloseModal();
      }
    }

    // ----------------------------------------------------------- navigation

    /** toggleNavigation: flip the flag and, when the menu exists, show it
        as flex exactly when open. */
    method ToggleNavigation()
      requires Valid()
      modifies this`isNavOpen, this`menuDisplay
      ensures Valid()
      ensures isNavOpen == !old(isNavOpen)
      ensures menuDisplay == if hasNavMenu then Navigation.MenuDisplay(isNavOpen) else old(menuDisplay)
    {
      isNavOpen := !isNavOpen;
      if hasNavMenu {
        menuDisplay := if isNavOpen then Navigation.Flex else Navigation.Hidden;
      }
    }

    /** handleResize at viewport width `width`. */
    method HandleResize(width: int)
      requires Valid()
      modifies this`isNavOpen, this`menuDisplay, this`grid
      ensures Valid()
      ensures isNavOpen == (old(isNavOpen) && !Navigation.ClosesOnResize(width, old(isNavOpen)))
      ensures menuDisplay == if Navigation.ClosesOnResize(width, old(isNavOpen)) && hasNavMenu
                             then Navigation.Hidden else old(menuDisplay)
      ensures grid == if hasCountdownGrid then Some(Navigation.GridFor(width)) else old(grid)
    {
      if width > Navigation.DesktopBreakpoint && isNavOpen {
        ToggleNavigation();
      }
      if hasCountdownGrid {
        if width < Navigation.PhoneBreakpoint {
          grid := Some(Navigation.Grid(1, 200));
        } else if width < Navigation.DesktopBreakpoint {
          grid := Some(Navigation.Grid(2, 300));
        } else {
          grid := Some(Navigation.Grid(4, 500));
        }
      }
    }

    /** The window scroll listener: request one animation frame unless one
        is already pending. */
    method OnWindowScroll() returns (frameRequested: bool)
      modifies this`ticking
      ensures old(Valid()) ==> Valid()
      ensures frameRequested == !old(ticking) && ticking
    {
      frameRequested := false;
      if !ticking {
        frameRequested := true;
        ticking := true;
      }
    }

    /** handleNavScroll in that frame. The offset is window.pageYOffset, or
        the document's scrollTop when the former is 0. Without a nav bar the
        handler returns before clearing `ticking`. */
    method HandleNavScroll(pageYOffset: int, documentScrollTop: int)
      requires Valid()
      modifies this`navHidden, this`lastScrollTop, this`ticking
      ensures Valid()
      ensures var scrollTop := if pageYOffset != 0 then pageYOffset else documentScrollTop;
        hasNav ==> Navigation.Bar(navHidden, lastScrollTop) == Navigation.NavScroll(old(lastScrollTop), scrollTop) && !ticking
      ensures !hasNav ==> navHidden == old(navHidden) && lastScrollTop == old(lastScrollTop) && ticking == old(ticking)
    {
      var scrollTop := if pageYOffset != 0 then pageYOffset else documentScrollTop;
      if !hasNav {
        return;
      }
      navHidden := scrollTop > lastScrollTop && scrollTop > Navigation.HideThreshold;
      lastScrollTop := if scrollTop <= 0 then 0 else scrollTop;
      ticking := false;
    }

    // ---------------------------------------------------------------- forms

    /** handleNotificationFormSubmission. `email` is the email input's value
        (None when the form has no email input). A rejected email returns
        before the button is touched or the backend is called; otherwise the
        backend is called with the button disabled and labelled "Joining...",
        and on either outcome the button ends enabled with its label.
        `during` is the button as the backend call found it. */
    method HandleNotificationFormSubmission(email: Option<string>, btn: SubmitButton?)
      returns (r: Forms.Outcome, ghost during: Option<ButtonState>)
      modifies btn
      ensures email.None? || btn == null ==> r == Forms.ElementsMissing && during == None
      ensures btn != null && (email.None? || Forms.ValidateNotification(email.value).Failure?) ==>
                btn.disabled == old(btn.disabled) && btn.text == old(btn.text)
      ensures email.Some? && btn != null && Forms.ValidateNotification(email.value).Failure? ==>
                r == Forms.Rejected(Forms.InvalidEmail, Some(Forms.NotificationEmailMessage)) && during == None
      ensures email.Some? && btn != null && Forms.ValidateNotification(email.value).Success? ==>
                during == Some(ButtonState(true, Forms.JoiningLabel))
                && !btn.disabled && btn.text == old(btn.text)
                && (r == Forms.Succeeded || r == Forms.Failed(Forms.NotificationFailureMessage))
    {
      during := None;
      if email.None? || btn == null {
        return Forms.ElementsMissing, during;
      }
      var checked := Forms.ValidateNotification(email.value);
      if checked.Failure? {
        return Forms.Rejected(Forms.InvalidEmail, Some(Forms.NotificationEmailMessage)), during;
      }
      var originalText := btn.text;
      btn.text := Forms.JoiningLabel;
      btn.disabled := true;
      during := Some(ButtonState(btn.disabled, btn.text));
      var ok := CallBackend();
      r := if ok then Forms.Succeeded else Forms.Failed(Forms.NotificationFailureMessage);
      btn.text := originalText;
      btn.disabled := false;
    }

    /** handleContactFormSubmission. `email` and `name` are the form's
        entries (None when the form has no such field). The email is checked
        first, untrimmed, then the trimmed name; a rejection returns before
        the button is touched or the backend is called, and its message is
        shown only when the field exists. Otherwise the backend is called
        with the button disabled and labelled "Submitting...", and on either
        outcome the button ends enabled with its label. */
    method HandleContactFormSubmission(email: Option<string>, name: Option<string>, btn: SubmitButton?)
      returns (r: Forms.Outcome, ghost during: Option<ButtonState>)
      modifies btn
      ensures btn == null ==> r == Forms.ElementsMissing && during == None
      ensures btn != null && Forms.ValidateContact(email, name) == Some(Forms.InvalidEmail) ==>
                r == Forms.Rejected(Forms.InvalidEmail, if email.Some? then Some(Forms.ContactEmailMessage) else None)
      ensures btn != null && Forms.ValidateContact(email, name) == Some(Forms.NameTooShort) ==>
                r == Forms.Rejected(Forms.NameTooShort, if name.Some? then Some(Forms.ContactNameMessage) else None)
      ensures btn != null && Forms.ValidateContact(email, name).Some? ==>
                during == None && btn.disabled == old(btn.disabled) && btn.text == old(btn.text)
      ensures btn != null && Forms.ValidateContact(email, name) == None ==>
                during == Some(ButtonState(true, Forms.SubmittingLabel))
                && !btn.disabled && btn.text == old(btn.text)
                && (r == Forms.Succeeded || r == Forms.Failed(Forms.ContactFailureMessage))
    {
      during := None;
      if btn == null {
        return Forms.ElementsMissing, during;
      }
      var checked := Forms.ValidateContact(email, name);
      if checked == Some(Forms.InvalidEmail) {
        r := Forms.Rejected(Forms.InvalidEmail, if email.Some? then Some(Forms.ContactEmailMessage) else None);
        return;
      }
      if checked == Some(Forms.NameTooShort) {
        r := Forms.Rejected(Forms.NameTooShort, if name.Some? then Some(Forms.ContactNameMessage) else None);
        return;
      }
      var originalText := btn.text;
      btn.text := Forms.SubmittingLabel;
      btn.disabled := true;
      during := Some(ButtonState(btn.disabled, btn.text));
      var ok := CallBackend();
      r := if ok then Forms.Succeeded else Forms.Failed(Forms.ContactFailureMessage);
      btn.text := originalText;
      btn.disabled := false;
    }
  }

  // ------------------------------------------------------------- scenarios

  /** Opening the modal at offset `y` and closing it asks to scroll back to
      exactly `y` and leaves the modal closed. */
  method OpenThenCloseRestoresScroll(app: CelestiaApp, y: int) returns (scrollTo: Option<int>)
    requires app.Valid() && app.hasModal
    modifies app
    ensures app.Valid() && !app.isModalOpen && scrollTo == Some(y)
  {
    app.OpenModal(y);
    scrollTo := app.CloseModal();
  }

  /** Two toggles restore the flag; with a menu, the display is left at
      'none' rather than at the value it had before the first toggle. */
  method ToggleTwice(app: CelestiaApp)
    requires app.Valid() && !app.isNavOpen
    modifies app
    ensures app.Valid() && !app.isNavOpen
    ensures app.hasNavMenu ==> app.menuDisplay == Navigation.Hidden
  {
    app.ToggleNavigation();
    app.ToggleNavigation();
  }

  /** A page loaded after the launch instant: the source's start leaves the
      latch set and the interval running, the handlers work as on any other
      page, and destroy is what finally clears the interval. */
  method LateLoadThenDestroy(app: CelestiaApp, now: int, y: int)
    requires app.Valid() && !app.isCountdownComplete && now > app.targetDate
    modifies app
    ensures app.Valid() && app.isCountdownComplete && !app.intervalActive
    ensures app.hasModal ==> app.isModalOpen && app.scrollPosition == y
  {
    app.StartCountdownAsWritten(now);
    assert app.isCountdownComplete && app.intervalActive && !app.LatchStopsInterval();
    app.OpenModal(y);
    app.Destroy();
  }

  /** Opening the menu and then widening the viewport past 768 closes it. */
  method OpenThenWidenCloses(app: CelestiaApp, width: int)
    requires app.Valid() && !app.isNavOpen && width > Navigation.DesktopBreakpoint
    modifies app
    ensures app.Valid() && !app.isNavOpen
    ensures app.hasNavMenu ==> app.menuDisplay == Navigation.Hidden
  {
    app.ToggleNavigation();
    app.HandleResize(width);
  }
}
