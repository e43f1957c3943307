# Barnevis website: client-side behaviour in Dafny

A model of four small pieces of the site's browser code, with the browser
reduced to plain state:

- **Theme engine** (`assets/js/modules/themeController.js`): the light/dark
  theme kept in the root element's `data-theme` attribute, mirrored into the
  `theme-color` meta element and, when asked, into the `barnevis-theme`
  local-storage slot; every change dispatches a `themechange` event, kept as
  a ghost log. The OS colour-scheme preference and the presence of
  `matchMedia` are inputs.
- **Active-link marking** (`assets/js/modules/navActive.js`): the page name
  of a path (`getPageName`) and the loop that marks the navigation anchor of
  the current page with class `active` and `aria-current="page"`.
- **Mobile menu** (`assets/js/modules/mobileMenu.js`): the `isMenuOpen` flag
  of `initMobileMenu`, the DOM mirrors kept in step with it, keyboard focus,
  and the focus-trap handler registered on the document and remembered on
  the nav container; clicks, key presses and resizes are methods.
- **Typing animation** (`assets/js/modules/typewriter.js`): the `TypeWriter`
  class; the timer chain of `type` calls is a loop.

Files: `wrappers.dfy` (Option), `strings.dfy` (JavaScript `split`/`pop`),
`theme_controller.dfy`, `nav_active.dfy`, `mobile_menu.dfy`,
`typewriter.dfy`.

Points where the code's behaviour is easy to misread, and which the model
follows:

- `getPageName` tests for an empty segment before cutting at `#`, so a final
  segment `#top` names the empty page `""`, not `index.html`
  (`NavActive.PageNameOfBareFragment`). Its `file === '/'` test can never
  hold after splitting at `/`.
- The `isIndex` clause of the marking test adds nothing: `./` and `""` both
  name `index.html`, so an anchor is marked exactly when its page name equals
  the current one (`NavActive.IsCurrent`).
- Storage reads follow JavaScript truthiness: an empty stored string counts
  as nothing stored.
- `initializeTheme` persists the system theme when nothing is stored, so
  after it has run storage always holds a value and the OS-change listener,
  which acts only when nothing is stored, never changes the theme again
  (`ThemeController.ThemeEngine.InitializeTheme` ensures `Truthy(storage)`;
  `ThemeController.OsChangeAfterInitIsIgnored`). The comment beside that call
  speaks of applying the theme without saving; the model follows the code.

## Model

| member | source | states |
|---|---|---|
| `Strings.Split` | assets/js/modules/navActive.js:3 | `split` yields at least one part, no part contains the separator, and joining the parts with it gives the input back |
| `Strings.LastPartIsFinalSegment` | assets/js/modules/navActive.js:3 | the popped part is the final separator-free segment of the path: a suffix that is the whole path or follows a separator |
| `Strings.FirstPartIsCut` | assets/js/modules/navActive.js:5 | `split('#')[0]` is the input cut at its first `#` (all of it when there is none) |
| `NavActive.PageName` | assets/js/modules/navActive.js:1-7 | a page name never contains `/` or `#`; `PageNameOfFinalSegment` below gives its value in full |
| `NavActive.PageNameOfFinalSegment` | assets/js/modules/navActive.js:1-7 | the page name is `index.html` when the final segment is empty, otherwise that segment cut at its first `#`, and the segment itself when it has no `#` |
| `NavActive.IndexHrefsNameIndex` | assets/js/modules/navActive.js:22 | the hrefs `./` and `""` both name `index.html` |
| `NavActive.PageNameOfFile` | assets/js/modules/navActive.js:3-6 | a path ending in a plain file name names that file |
| `NavActive.PageNameOfDirectory` | assets/js/modules/navActive.js:4 | a path ending in `/` names `index.html` |
| `NavActive.PageNameOfFileWithFragment` | assets/js/modules/navActive.js:5 | a fragment after a file name is cut off |
| `NavActive.PageNameOfBareFragment` | assets/js/modules/navActive.js:4-5 | a final segment starting with `#` names the empty page, because emptiness is tested before the cut |
| `NavActive.IsSkipped` | assets/js/modules/navActive.js:17 | an href is skipped exactly when its first four characters are `http` or its first character is `#` |
| `NavActive.IsCurrent` | assets/js/modules/navActive.js:22-25 | `isSame` or `isIndex` holds exactly when the href's page name equals the current page name |
| `NavActive.MarkLink` | assets/js/modules/navActive.js:15-31 | `http…` and `#…` anchors are unchanged; any other anchor has class `active` and `aria-current="page"` iff its page name is the current one, loses both otherwise, and keeps its href and other classes |
| `NavActive.MarkLinkIdempotent` | assets/js/modules/navActive.js:15-31 | marking an anchor twice equals marking it once |
| `NavActive.MarkAll` | assets/js/modules/navActive.js:14-32 | the loop marks every anchor against the same current page and keeps their order |
| `NavActive.MarkAllIdempotent` | assets/js/modules/navActive.js:9-33 | running the marking twice with the same location and anchors gives the same states as running it once |
| `NavActive.MarkPlainLink` | assets/js/modules/navActive.js:19-31 | an anchor to a plain file name is marked iff that name is the current page, and unmarked otherwise |
| `NavActive.PricingScenario` | assets/js/modules/navActive.js:9-33 | on page `…/pricing.html`, of anchors to another file, to `pricing.html` and to `#contact` only the second is marked, the first is unmarked and the third untouched |
| `NavActive.SetActiveNavLink` | assets/js/modules/navActive.js:9-33 | the anchors, updated in place, equal the marking of their old values against the location's page name |
| `ThemeController.Coerce` | assets/js/modules/themeController.js:46-49 | the applied theme is dark iff the input is exactly `'dark'`; anything else becomes light; valid names are kept |
| `ThemeController.CoerceName` | assets/js/modules/themeController.js:46-49 | coercing a valid theme's name gives that theme back |
| `ThemeController.MetaColor` | assets/js/modules/themeController.js:89-94 | the meta colour is `#f9fafb` for light and `#09090b` for dark |
| `ThemeController.MetaColorDistinguishes` | assets/js/modules/themeController.js:89-94 | the two themes get different meta colours |
| `ThemeController.ThemeOfAttribute` | assets/js/modules/themeController.js:37-39 | `getTheme` is the attribute, or `'light'` when it is absent or empty; never empty |
| `ThemeController.SystemPreference` | assets/js/modules/themeController.js:13-18 | the system theme is dark iff `matchMedia` exists and reports a dark preference |
| `ThemeController.InitialTheme` | assets/js/modules/themeController.js:122 | a stored value wins; otherwise the system theme |
| `ThemeController.Flip` | assets/js/modules/themeController.js:70-71 | the toggled theme is dark iff the current theme reads `'light'` |
| `ThemeController.FlipTwice` | assets/js/modules/themeController.js:69-74 | toggling twice from a valid theme restores it |
| `ThemeController.FlipOfInvalid` | assets/js/modules/themeController.js:70-71 | a current value that is neither name toggles to light |
| `ThemeController.ThemeEngine.GetTheme` | assets/js/modules/themeController.js:37-39 | the `data-theme` attribute when it is present and non-empty, otherwise `'light'`; never empty |
| `ThemeController.ThemeEngine.UpdateMetaThemeColor` | assets/js/modules/themeController.js:79-95 | the meta element exists afterwards and holds the theme's colour; nothing else changes |
| `ThemeController.ThemeEngine.SetTheme` | assets/js/modules/themeController.js:44-64 | attribute and meta colour get the coerced theme; storage gets it iff `save`, else is unchanged; exactly one event carrying it is appended |
| `ThemeController.ThemeEngine.ToggleTheme` | assets/js/modules/themeController.js:69-74 | returns and applies dark iff the current theme is `'light'`, else light, and always persists it |
| `ThemeController.ThemeEngine.InitializeTheme` | assets/js/modules/themeController.js:118-126 | a stored value is applied (coerced) and storage is untouched; with nothing stored the system theme is applied and persisted; storage holds a value afterwards |
| `ThemeController.ThemeEngine.WatchSystemPreference` | assets/js/modules/themeController.js:100-113 | the change listener is installed only when `matchMedia` exists |
| `ThemeController.ThemeEngine.InitThemeEarly` | assets/js/modules/themeController.js:171-183 | applies the resolved theme to the attribute and meta colour with one event; storage keeps a stored value, or receives the system theme when nothing was stored; then the OS listener is installed iff `matchMedia` exists |
| `ThemeController.ThemeEngine.OnSystemPreferenceChange` | assets/js/modules/themeController.js:106-112 | applies the OS theme without persisting only when the listener is installed and nothing is stored; otherwise nothing changes |
| `ThemeController.OsChangeAfterInitIsIgnored` | assets/js/modules/themeController.js:106-126 | after early initialisation an OS change leaves the initial theme in place and dispatches no further event |
| `MobileMenu.Label` | assets/js/modules/mobileMenu.js:25 | the close label is shown exactly when the menu is open |
| `MobileMenu.Icon` | assets/js/modules/mobileMenu.js:28-31 | the icon reads `close` when open and `menu` when closed |
| `MobileMenu.BoolString` | assets/js/modules/mobileMenu.js:24 | `aria-expanded` is `"true"` when open and `"false"` when closed |
| `MobileMenu.TrapFor` | assets/js/modules/mobileMenu.js:62-69 | a trap exists iff the nav has a focusable element, and spans the first and last of them |
| `MobileMenu.TrapDecision` | assets/js/modules/mobileMenu.js:71-87 | non-Tab keys are ignored; Tab on the last element goes to the button; Shift+Tab on the first element or the button goes to the last; every other case leaves focus alone |
| `MobileMenu.TrapRoundTrip` | assets/js/modules/mobileMenu.js:71-87 | Tab from the last element then Shift+Tab from the button returns to the last element |
| `MobileMenu.RemoveListener` | assets/js/modules/mobileMenu.js:98 | removing a handler leaves every other listener and none of that handler |
| `MobileMenu.MenuController.constructor` | assets/js/modules/mobileMenu.js:6-13 | listeners are wired only when both the button and the nav exist; the menu starts closed with no trap and no element changed |
| `MobileMenu.MenuController.SetupFocusTrap` | assets/js/modules/mobileMenu.js:61-91 | registers and remembers the trap over the first and last focusable element, or none when there is none |
| `MobileMenu.MenuController.RemoveFocusTrap` | assets/js/modules/mobileMenu.js:96-101 | afterwards no trap is remembered or registered |
| `MobileMenu.MenuController.ToggleMenu` | assets/js/modules/mobileMenu.js:18-45 | negates `isMenuOpen`, flips the nav and header classes, sets `aria-expanded`, label and icon to the new state, focuses the first link and installs the trap on opening, removes the trap on closing |
| `MobileMenu.MenuController.CloseMenu` | assets/js/modules/mobileMenu.js:50-56 | a no-op when closed; when open, leaves the menu closed with mirrors matching, no trap, and focus on the button |
| `MobileMenu.MenuController.Click` | assets/js/modules/mobileMenu.js:104-126 | a click on the button toggles exactly as `toggleMenu` does (state, classes, mirrors, focus, trap); a click outside nav and button closes an open menu; any other click changes nothing; the class and ARIA mirrors stay in step |
| `MobileMenu.MenuController.KeyDown` | assets/js/modules/mobileMenu.js:109-115 | Escape closes an open menu and is a no-op on a closed one; Tab changes nothing but focus, which moves as the registered trap decides; other keys change nothing |
| `MobileMenu.MenuController.Resize` | assets/js/modules/mobileMenu.js:131-135 | widening past 768 closes an open menu; otherwise nothing changes |
| `Typewriter.TypeWriter.constructor` | assets/js/modules/typewriter.js:2-8 | a new writer starts at index 0 with speed 50 and delay 0 by default |
| `Typewriter.TypeWriter.Type` | assets/js/modules/typewriter.js:18-26 | while text remains, appends exactly `text[currentIndex]` and advances by one, keeping `textContent == initial + text[..currentIndex]` and `currentIndex` never past the end of `text`; at the end invokes the callback if any and schedules nothing |
| `Typewriter.TypeWriter.Start` | assets/js/modules/typewriter.js:10-26 | the chain makes one appending step per remaining character, ends with the whole text typed and resolves exactly once |

## Left out

- `assets/js/modules/htmlInjector.js`: network fetching and `innerHTML` injection; its only logic is that a failed fetch yields `''`.
- `assets/js/modules/errorHandler.js`: notification elements, templating, timed show/hide and the global error listeners.
- `assets/js/main.js` and `script.js`: page-load and `IntersectionObserver` wiring and timed fade-ins; `script.js` repeats the `TypeWriter` class modelled here.
- `attachToggleButton` and `initThemeController`: they only connect the toggle button and the `Ctrl/Cmd+Shift+D` shortcut to `toggleTheme`, which is modelled; the ripple effect and `console` output are left out.
- `loadPreference` and `savePreference` are the reads and writes of the storage field; the real `CustomEvent` and `matchMedia` objects are replaced by the event log and the boolean inputs.
- The module-level start-up of themeController.js calls `initializeTheme` in both branches; it is the single `InitializeTheme` call.
- Timing: speeds, delays and the timers are not modelled, only the order of steps; `Typewriter.TypeWriter.Start` starts the chain at once instead of after `delay`.
- Typewriter.TypeWriter.Start: its `steps` result counts the timer callbacks; JavaScript returns a promise instead.
- Strings are sequences of characters; JavaScript's UTF-16 code units (`length`, `charAt`) are not distinguished from characters.
- DOM queries are inputs: whether the menu button, nav container, header and icon exist, the nav's first anchor and focusable elements, and whether a click target lies inside the nav or the button. Focusing always succeeds.
- Other classes on the nav container and header, and other document listeners, are not modelled.
- MobileMenu.MenuController.KeyDown: `focus` afterwards is the focus once the document's listeners have run. The browser's default Tab navigation, which moves focus to the next or previous element whenever the trap does not prevent it, is not modelled.
- Storage errors: `localStorage.getItem` and `setItem` are taken never to throw. In the browser a throwing `setItem` stops `setTheme` before its event is dispatched, and `initThemeEarly`'s `catch` then skips `watchSystemPreference`.
- A missing `data-text` attribute: the writer's text is always a string. With a `null` text, `type` throws on its first step and the promise of `start` never resolves.
