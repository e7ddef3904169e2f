# Celestia landing-page controller, modelled in Dafny

`CelestiaApp` (app.js) drives a product-launch landing page: a countdown to a
fixed launch instant that flips once into a "launched" state, a notification
form and a contact form that validate an email (and a name) before calling a
backend, a modal that pins and restores the page scroll, and a navigation
menu that reacts to toggles, resizes and scrolling. This project models the
logic inside those handlers and proves what it promises.

Files, one module each:

- `common.dfy` (`Common`): `Option` and `Result`.
- `text.dfy` (`Text`): the `\s` whitespace class and `trim`, decimal
  `toString`, `padStart`, and `parseInt(text) || 0`.
- `countdown.dfy` (`Countdown`): splitting the remaining milliseconds into
  days, hours, minutes and seconds; the slot rewrite rule; the tick with its
  completion latch; runs of ticks; starting the ticker.
- `email.dfy` (`Email`): `isValidEmail` as four explicit conditions, proved
  equal to a direct reading of `^[^\s@]+@[^\s@]+\.[^\s@]+$`.
- `forms.dfy` (`Forms`): the validation gates of the two forms.
- `navigation.dfy` (`Navigation`): menu display, resize breakpoints, the
  hide-on-scroll rule.
- `app.dfy` (`App`): the class `CelestiaApp` with the source's state fields
  (`isModalOpen`, `isNavOpen`, `scrollPosition`, `isCountdownComplete`,
  `intervalActive` for `countdownInterval`, the digit slots, `lastScrollTop`,
  `ticking`) and one method per handler. Each state-changing method states
  its new state, either directly or as a function of the old state from the
  modules above. Every handler keeps the invariant `Valid()`. The
  separate property `LatchStopsInterval()` (a set latch has stopped the
  interval) is established by the corrected start and kept by every tick,
  but the source's own start order breaks it (see Findings).

Inputs from the browser become parameters: the clock reading `now`,
`window.pageYOffset`, the document's `scrollTop`, `window.innerWidth`, the
key of a keydown event, and the values of form fields. A field that does not
exist is `None`, and a button that was not found is `null`. Which DOM elements
exist is fixed when the controller is constructed. The scroll that
`closeModal` asks for is returned to the caller. The backend call
(`simulateSubscription`, `simulateContactSubmission`) is a method whose
result is nondeterministic. So the form handlers are proved for both
outcomes.

## Model

| member | source | states |
|---|---|---|
| Text.TrimStart | app.js:402 | the result is a suffix of the input, everything dropped is whitespace, and it does not start with whitespace |
| Text.TrimEnd | app.js:402 | the result is a prefix of the input, everything dropped is whitespace, and it does not end with whitespace |
| Text.Trim | app.js:402 | `trim` never lengthens the text and leaves no whitespace at either end |
| Text.TrimKeepsMiddle | app.js:402 | `trim` keeps one contiguous middle part, removes only whitespace on either side, and leaves no whitespace at its ends |
| Text.TrimPadded | app.js:402 | whitespace around a word whose ends are not whitespace is exactly what `trim` removes |
| Text.TrimNoWhitespace | app.js:402 | a string without whitespace is its own trim, so the trim before the notification test leaves a valid address as the contact form tests it untrimmed at app.js:438 |
| Text.ToDecimal | app.js:129 | `toString` of a non-negative integer gives decimal digits, a single digit exactly below 10, and no leading zero from 10 up |
| Text.ParseToDecimal | app.js:122-129 | reading back the decimal digits of `n` gives `n` |
| Text.ParseLeadingZero | app.js:129 | a leading '0' does not change the value of a digit string |
| Text.PadStart | app.js:129 | `padStart` gives the longer of the text and the width, keeps the text at the end, and fills the front with the fill character |
| Text.Padded | app.js:129 | the slot text is at least two characters, all decimal digits |
| Text.PaddedDigits | app.js:129 | the slot text is at least two digits, is the plain decimal form from 10 up, is '0' then the digit below 10, and reads back as the value |
| Text.LeadingDigits | app.js:122 | the longest digit prefix parseInt reads: a prefix, all digits, followed by a non-digit or the end |
| Text.ParseIntOrZero | app.js:122 | a non-zero result comes from text that is not blank after leading whitespace, and it is negative iff that text starts with '-' |
| Text.ParseIntOfDigits | app.js:122 | `parseInt(s) \|\| 0` of a non-empty digit string is its decimal value |
| Text.ParsePadded | app.js:122-129 | a slot written with the padded value reads back through `parseInt(...) \|\| 0` as exactly that value |
| Countdown.Decompose | app.js:103-106 | hours < 24, minutes < 60, seconds < 60, and the days are the whole days in the distance |
| Countdown.DecomposeIsExpansion | app.js:102-106 | the four values are in clock range and the distance equals their milliseconds plus the distance modulo 1000 |
| Countdown.DecomposeBrackets | app.js:102-106 | hours < 24, minutes < 60, seconds < 60, and days·86400000 + hours·3600000 + minutes·60000 + seconds·1000 ≤ distance < that + 1000 |
| Countdown.DecomposeUnique | app.js:102-106 | any in-range values that bracket the distance that way are the decomposition |
| Countdown.Animate | app.js:119-129 | a missing slot is left alone; a present slot is rewritten only when its parsed value differs from the new one, and then with the padded value; other slots are untouched; afterwards the slot reads the new value |
| Countdown.Render | app.js:108-111 | the four slot updates of a tick neither add nor remove a slot |
| Countdown.RenderShows | app.js:108-111 | after the four slot updates of a tick every present slot parses, through `parseInt(...) \|\| 0`, as its part, and no slot appears or disappears |
| Countdown.NonNumericSlotKeptAtZero | app.js:122-124 | a slot showing "--" reads as 0, so it is left as "--" when the value to show is 0 |
| Countdown.RenderIdempotent | app.js:108-111 | rendering values the slots already show writes nothing |
| Countdown.Launch | app.js:167-171 | the launch sets the latch, leaves no interval running and writes no slot |
| Countdown.Tick | app.js:93-113 | after a tick the latch is set iff it was set before or the distance is negative, and a tick never breaks "latch set means no interval" |
| Countdown.TickEffects | app.js:97-102 | no slot changes for a negative distance; a launch sets the latch and stops the interval; the latch is set afterwards iff it was set before or the distance was negative |
| Countdown.TickShowsDecomposition | app.js:102-111 | for a non-negative distance each present slot reads the matching part of the decomposition after the tick |
| Countdown.RunCompletes | app.js:97-100 | after any sequence of ticks the latch is set iff it started set or some tick saw the clock past the target |
| Countdown.RunStaysComplete | app.js:167-168 | once set, the latch stays set through any sequence of ticks |
| Countdown.LaunchAtMostOnce | app.js:97-100 | over any sequence of ticks the launched transition fires once if the latch went from unset to set, and never otherwise |
| Countdown.LaunchOnceWhenCrossing | app.js:97-100 | a clock that passes the target while the latch is unset launches exactly once, however many ticks follow |
| Countdown.StartAsWritten | app.js:115-116 | with the code's order the interval is running after the start whatever the first tick did, and the latch is set iff it was set or the target has passed |
| Countdown.RunKeepsIntervalOnceComplete | app.js:97-112 | once the latch is set, any sequence of later ticks leaves it set and leaves the interval as it was |
| Countdown.StartAsWrittenLeavesIntervalRunning | app.js:115-116 | with the code's order, a page loaded after the target ends with the latch set and the interval running, and after any sequence of later ticks the interval is still running |
| Countdown.Start | app.js:115-116 | with the interval installed before the first tick, a start from an unset latch leaves the interval running iff the latch is still unset |
| Countdown.StartStopsIntervalOnceLaunched | app.js:115-116 | with the interval installed before the first tick, the interval runs exactly while the latch is unset, after the start and after every later tick |
| Countdown.TickKeepsStoppedInterval | app.js:167-171 | ticks keep "interval running iff latch unset" |
| Email.IsValidEmail | app.js:490-493 | an accepted address has at least five characters, no whitespace and an '@' |
| Email.ValidIffMatchesPattern | app.js:490-493 | the four conditions (no whitespace, exactly one '@', a non-empty local part, a domain with a '.' that is neither its first nor its last character) hold iff the string matches `^[^\s@]+@[^\s@]+\.[^\s@]+$` |
| Email.AcceptsExample | app.js:490-493 | "a@b.co" is accepted |
| Email.RejectsExamples | app.js:490-493 | "", "a@b", "a b@c.com" and "@b.com" are rejected |
| Forms.ValidateNotification | app.js:402-407 | a pass submits a valid address no longer than the input; the only failure is an invalid email |
| Forms.ValidateContact | app.js:435-452 | any outcome other than an email error means the email as given (null read as "null") is valid; a pass means a name is present with at least two characters |
| Forms.NotificationAcceptsPadded | app.js:402-407 | a valid address with whitespace around it passes the notification form, and the address alone is submitted |
| Forms.NotificationSubmitsTrimmed | app.js:402-407 | what the notification form submits is a valid address that the input held with only whitespace around it |
| Forms.ContactEmailStricter | app.js:435-444 | every email the contact form accepts, the notification form accepts unchanged |
| Forms.ContactRejectsPadded | app.js:435-444 | leading whitespace makes the contact form reject the email, whatever the name |
| Forms.ContactMissingEmail | app.js:435-444 | a contact form without an email field is rejected on the email, since null is tested as "null" |
| Forms.ContactNameRule | app.js:446-452 | with a valid email the form passes iff the name is present and keeps at least two characters after trimming |
| Navigation.MenuDisplay | app.js:663 | a toggle always writes an explicit display, never leaves it unset |
| Navigation.ClosesOnResize | app.js:882 | a width at which an open menu is closed is one at which the grid gets 4 columns |
| Navigation.GridFor | app.js:886-899 | 1 column below 480, 2 columns from 480 below 768, 4 columns from 768 |
| Navigation.GridMonotone | app.js:889-898 | a wider viewport never gets fewer or narrower columns |
| Navigation.BreakpointsDisagreeAt768 | app.js:882-898 | at width 768 the grid has 4 columns but an open menu stays open; at 769 it closes |
| Navigation.NavScroll | app.js:704 | the remembered offset is never negative and never below the current offset |
| Navigation.ScrollRunLastStep | app.js:693-704 | after two or more scroll events the bar is hidden iff the last offset is above 100 and above the previous offset clamped at 0, and the last offset (clamped) is remembered |
| Navigation.StillScrollShows | app.js:693-704 | a second event at the offset already reached never hides the bar |
| App.CelestiaApp.constructor | app.js:5-34 | the initial state: modal and menu closed, scroll offset 0, latch unset, no interval, nothing written to the menu or grid; `Valid()` and `LatchStopsInterval()` hold |
| App.CelestiaApp.AnimateCountdownValue | app.js:119-137 | the slots become `Countdown.Animate` of the old slots |
| App.CelestiaApp.HandleCountdownComplete | app.js:167-171 | sets the latch and leaves no interval running |
| App.CelestiaApp.UpdateCountdown | app.js:93-113 | the new ticker state is `Countdown.Tick` of the old one, and it reports a launch exactly when the distance is negative with the latch unset; keeps `Valid()` and `LatchStopsInterval()` |
| App.CelestiaApp.RenderParts | app.js:108-111 | the four slot updates in the source's order give `Countdown.Render` |
| App.CelestiaApp.StartCountdown | app.js:115-116 | with the interval installed before the first tick, the new ticker state is `Countdown.Start` of the old one, and the interval runs iff the latch is unset; establishes `LatchStopsInterval()` and keeps `Valid()` |
| App.CelestiaApp.StartCountdownAsWritten | app.js:115-116 | in the source's order the new ticker state is `Countdown.StartAsWritten` of the old one, and the interval is running afterwards; keeps `Valid()` |
| App.CelestiaApp.Destroy | app.js:969-974 | no interval is left running, from any valid state, including the leaked interval of a late page load |
| App.CelestiaApp.OpenModal | app.js:298-302 | with a modal, it is open and the current offset is recorded; without one, nothing changes |
| App.CelestiaApp.CloseModal | app.js:336-345 | with a modal, it is closed and a scroll to the recorded offset is requested; without one, nothing changes and no scroll is requested |
| App.CelestiaApp.HandleKeyDown | app.js:282-286 | Escape closes the modal and restores the offset only while the modal is open; any other key, or Escape while closed, changes nothing |
| App.CelestiaApp.ToggleNavigation | app.js:659-664 | the flag flips, and an existing menu is shown as flex iff the flag is set |
| App.CelestiaApp.HandleResize | app.js:878-899 | an open menu is closed iff the width is above 768; an existing grid gets the layout for the width |
| App.CelestiaApp.OnWindowScroll | app.js:708-713 | a frame is requested iff none is pending, and one is pending afterwards |
| App.CelestiaApp.HandleNavScroll | app.js:686-706 | with a nav bar, the bar and remembered offset become `Navigation.NavScroll` of the old offset and the current offset, and the pending frame is cleared; without one, nothing changes |
| App.CelestiaApp.HandleNotificationFormSubmission | app.js:393-423 | missing elements or an invalid trimmed email return before the button is touched or the backend is called; otherwise the backend sees the button disabled as "Joining...", and on success or failure the button ends enabled with its original text |
| App.CelestiaApp.HandleContactFormSubmission | app.js:425-478 | a missing button, an invalid untrimmed email, then a short trimmed name each return before the button is touched or the backend is called; otherwise the backend sees the button disabled as "Submitting...", and on success or failure the button ends enabled with its original text |
| App.CallBackend | app.js:556-572 | the backend's answer is left open, so each form handler is proved for success and failure |
| App.OpenThenCloseRestoresScroll | app.js:298-345 | opening the modal at offset Y and closing it requests a scroll to exactly Y and leaves the modal closed |
| App.ToggleTwice | app.js:659-664 | two toggles from closed leave the menu closed, with its display at 'none' |
| App.LateLoadThenDestroy | app.js:115-116 | on a page loaded after the launch, the source's start leaves the interval running, the modal still opens at the current offset, and destroy then clears the interval |
| App.OpenThenWidenCloses | app.js:878-884 | opening the menu and then resizing above 768 closes it |

## Left out

- Presentation effects are not modelled: inline styles, class toggles, the launch banner and call-to-action relabelling, injected keyframes, ripples, confetti, focus moves, pinning the body, and the notification form's success modal. They carry no checkable decision. The contact form's success screen does carry one; see the `App.CelestiaApp.HandleContactFormSubmission` lines below.
- Timing is not modelled. The interval is only the flag `intervalActive`, and each tick is a call with the clock reading. The 150 ms delay before a slot is rewritten, the 1000 ms delay before the contact button is restored, the 250 ms resize debounce and animation-frame scheduling all happen at once in the model.
- The backend calls always resolve after a fixed delay in the source. The model leaves the outcome open, because the handlers are written to handle a rejection as well.
- Parallax, the stat counters, hover handlers, `IntersectionObserver` setup, blur-time email validation and the auto-clearing of field errors are left out. They are float arithmetic, randomness or presentation.
- The navigation bar's opacity and blur are float arithmetic and are left out. Smooth scrolling of anchor links and the "learn more" button is left out too, as is the wheel suppression while the modal is open.
- Parsing the launch date string is left out. `targetDate` is a given integer.
- Console logging, the service-worker and performance hooks and the module export are left out.
- Text.ParseIntOrZero: a "0x" prefix, which `parseInt` reads as hexadecimal, is not modelled. Nor is the loss of precision above 2^53. Before the countdown first writes a slot, the slot holds the page markup's text, which the constructor takes as any string; after that it holds what the countdown wrote.
- Forms.ValidateContact: the name length counts Unicode scalar values, whereas JavaScript counts UTF-16 code units. A name of one character outside the Basic Multilingual Plane passes in the source and fails in the model.
- App.CelestiaApp.HandleContactFormSubmission: the source writes the button through `innerHTML`, during the call an SVG spinner followed by "Submitting..." wrapped in whitespace (app.js:456-464), and afterwards the saved `textContent` (app.js:455), assigned through `innerHTML` (app.js:474), so markup inside the original button is not restored. The model keeps only the text "Submitting..." during the call and restores the saved text.
- App.CelestiaApp.HandleContactFormSubmission: the contract covers one invocation on one button object. It does not model the success screen (app.js:604-622). That screen serializes the form while the button is still disabled and shows the spinner. The `finally` restore runs 1000 ms later (app.js:473-476) on a button that is by then detached. Five seconds after the success, the form is rebuilt from that markup (app.js:620), so the page keeps a disabled "Submitting..." button.
- App.CelestiaApp.HandleNotificationFormSubmission: the contract covers one invocation. After a successful contact submission, app.js:621 runs `initFormHandling` again, which adds a second submit listener to both forms (app.js:358-371). Each submission then runs the handler twice on the same button and calls the backend twice. The second run reads the original text (app.js:410) after the first has written "Joining..." (app.js:411), so the button is left reading "Joining...". Interleaved invocations are not modelled.
- App.CelestiaApp.StartCountdown: installs the interval before the first tick, the corrected order of the finding below; only that order establishes `LatchStopsInterval()`. The source's own order is `App.CelestiaApp.StartCountdownAsWritten`, which keeps `Valid()` but not `LatchStopsInterval()`.
- Offsets and widths are whole numbers in the model. A browser may report fractional scroll offsets.
- The ticker state holds the digit slots after the launch as well. In the source the launch replaces the countdown markup, so later writes go to detached elements.

Behaviours of the code worth noting:

- Two toggles from closed leave the menu's inline display at 'none', not unset (see `App.ToggleTwice`).
- A slot whose markup is not a number, such as "--", reads as 0 through `parseInt(...) || 0`, so it is not rewritten while the value to show is 0 (see `Countdown.NonNumericSlotKeptAtZero`). "Reads its part" in the slot lemmas therefore means "parses as its part".
- As written, a page loaded after the launch instant never cancels the interval (see Findings).

## Findings

| source | as written | input that shows it | evidently intended | confidence | as-written member | corrected member |
|---|---|---|---|---|---|---|
| app.js:115-116 | `updateCountdown()` runs before `countdownInterval` is assigned. A launch on that first tick finds no interval to clear, and the interval installed right after it is never cleared. Every later tick does nothing. | page opened after the launch instant, e.g. `targetDate` = 0 and `now` = 1 | the launch stops the ticker, e.g. by installing the interval before the first tick | medium, not executed | Countdown.StartAsWrittenLeavesIntervalRunning | Countdown.StartStopsIntervalOnceLaunched |
