# NexusCore AI page script — verified model of its interaction state machines

The page script `script.js` wires a static marketing page: a light/dark theme
toggle, a mobile menu, an FAQ accordion, smooth scrolling to sections, a
navbar that restyles on scroll, an active-nav-link highlighter, and a
`throttle` helper for scroll handlers. This project models those pieces
apart from the browser. Each piece's state is plain data: booleans, strings,
integer offsets and boolean arrays. Its event handlers are methods on a class
holding that state. The accordion, highlighter and throttle methods are
proved against a specification function (`AfterClick`, `Highlighted`,
`Next`), and lemmas prove the properties of those functions. The theme
methods are proved against `Opposite`, `InitialTheme` and `Render`. The
mobile-menu methods state their new state directly in their postconditions.

Modules and files:

- `Wrappers` (`wrappers.dfy`): `Option`, for a lookup that may find nothing and a storage key that may be unset.
- `Flags` (`flags.dfy`): rows of `active` flags, `AtMostOne`, and `Exclusive(n, k)` (only flag `k` set, or none).
- `Theme` (`theme.dfy`): `initThemeToggle`, `setTheme` and the toggle click.
- `MobileNav` (`mobilenav.dfy`): the hamburger, nav-link and document click handlers of `initMobileNav`.
- `Accordion` (`accordion.dfy`): the header click and keydown handlers of `initFAQAccordion`.
- `SmoothScroll` and `NavbarEffect`, two modules in `scrolling.dfy`: the scroll target of `initSmoothScrolling` and the navbar preset of `initScrollEffects`.
- `ActiveNav` (`activenav.dfy`): `highlightNavLink` of `initActiveNavigation`.
- `Throttle` (`throttle.dfy`): the closure returned by `throttle`.

Behaviour of the code worth knowing:

- Toggling twice restores the theme only for "light" and "dark" (`Theme.OppositeInvolutive`). Any other stored string is applied as is, and two toggles then leave "dark" (`Theme.OppositeForgetsUnknownTheme`). With nothing stored, two toggles leave "dark" stored where nothing was before.
- `localStorage.getItem('theme') || 'dark'` maps both a missing key and a stored empty string to "dark" (`Theme.InitialTheme`).
- A throwing `localStorage` aborts the start-up block. That path is not modelled.
- The highlighter scans every section. So when sections overlap, the last one in document order that holds the probe wins (`ActiveNav.LastMatchWins`). When that section has no nav link, every link ends up inactive.
- The accordion never resets the markup's `active` classes at start-up; it only sets `aria-expanded="false"`. So "at most one open" holds after the first click, or from the start when the markup has at most one open item (`Accordion.ClicksKeepMutualExclusion`). From the first click on, each header's `aria-expanded` equals its item's `active` flag.
- The throttle sets its flag only after `func` returns normally. A call on which `func` throws leaves the flag unset, so the next call runs `func` again (`Throttle.ThrowingCallsAllRun`).

## Model

| member | source | states |
|---|---|---|
| `Accordion.CloseOthers` | script.js:75-82 | The close-others loop keeps one flag per item. |
| `Accordion.CloseOthersAt` | script.js:75-82 | The close-others loop clears every item other than the clicked one and leaves the clicked one as it was. |
| `Accordion.AfterClick` | script.js:71-93 | A header click keeps one flag per item; its meaning is given by `Accordion.ClickOutcome`. |
| `Accordion.ClickOutcome` | script.js:71-93 | After a click on item i, all items are closed if i was open, and otherwise exactly item i is open, whatever the other items' state was. |
| `Accordion.ClickMutualExclusion` | script.js:71-93 | After any header click at most one FAQ item is active. |
| `Accordion.ClickOpenItemClosesAll` | script.js:72-88 | Clicking the header of an active item leaves every item inactive. |
| `Accordion.ClickClosedItemOpensIt` | script.js:89-93 | Clicking the header of an inactive item makes that item active and every other item inactive. |
| `Accordion.ClicksKeepMutualExclusion` | script.js:67-94 | Over any sequence of header clicks at most one item is active, given that the markup starts that way or at least one click happens. |
| `Accordion.AfterClicks` | script.js:67-94 | A sequence of header clicks keeps one flag per item. Its meaning is given by `Accordion.ClicksKeepMutualExclusion`. |
| `Accordion.FaqList.constructor` | script.js:96-99 | Start-up keeps the markup's `active` classes and sets every header's `aria-expanded` to false. |
| `Accordion.FaqList.ClickHeader` | script.js:71-94 | The click handler's loop and toggle produce exactly `AfterClick` of the old flags, and every header's `aria-expanded` then equals its item's `active` flag. |
| `Accordion.FaqList.KeyDown` | script.js:102-107 | Enter or Space on a header (`IsActivationKey`) acts exactly as a click; any other key changes nothing. |
| `Theme.InitialTheme` | script.js:11 | The start-up theme is never empty. It is the stored value when that is non-empty, and "dark" when nothing or the empty string is stored. |
| `Theme.Opposite` | script.js:15-16 | A toggle yields "light" or "dark". It yields "dark" exactly when the current theme is "light", and it always differs from a current "light" or "dark". |
| `Theme.OppositeInvolutive` | script.js:14-18 | Two toggles from "light" or "dark" return to the same theme. |
| `Theme.OppositeForgetsUnknownTheme` | script.js:14-18 | Two toggles from any other value settle on "dark", so that value is not restored. |
| `Theme.Render` | script.js:26-32 | The toggle's icon pictures the opposite theme (moon for dark, sun for light), and its label reads "Switch to <opposite> theme". |
| `Theme.FirstVisitIsDark` | script.js:11-12 | With nothing stored, the page applies "dark" and offers "Switch to light theme" with the sun icon. |
| `Theme.ThemeToggle.Init` | script.js:9-12 | Start-up applies `InitialTheme` of the stored value and leaves storage as it was. |
| `Theme.ThemeToggle.SetTheme` | script.js:22-33 | `setTheme` sets `data-theme`, icon and label from its argument alone and leaves storage alone, so applying the same theme twice equals applying it once. |
| `Theme.ThemeToggle.Click` | script.js:14-19 | A toggle click applies the opposite of the current `data-theme` and stores that same value. |
| `MobileNav.MobileMenu.HamburgerClick` | script.js:37-44 | The hamburger click flips both `active` flags, keeps them equal if they were equal, and sets `aria-expanded` to the new menu state. |
| `MobileNav.MobileMenu.NavLinkClick` | script.js:47-53 | A nav-link click leaves both flags and `aria-expanded` false, whatever the prior state. |
| `MobileNav.MobileMenu.DocumentClick` | script.js:56-62 | A click outside both the hamburger and the menu closes everything. A click inside either changes nothing. |
| `SmoothScroll.ScrollTarget` | script.js:117-127 | A resolved target scrolls to 80 pixels above the section's top. An unresolved one scrolls nowhere. |
| `NavbarEffect.StyleAt` | script.js:137-147 | The navbar shows one of two fixed presets, and the scrolled one exactly when `scrollY` exceeds 100. |
| `ActiveNav.Contains` | script.js:192 | A section holds the probe when `top <= probe < top + height`. A section that holds any probe has a positive height. |
| `ActiveNav.LinkFor` | script.js:190 | A section selects the first nav link whose `href` is "#" plus its id. If no link has that `href`, it selects none. |
| `ActiveNav.Highlighted` | script.js:183-199 | The highlighter keeps one flag per nav link. Its meaning is given by the three lemmas below. |
| `ActiveNav.LastMatchWins` | script.js:186-198 | The last section whose `[top, top+height)` holds the probe decides. Afterwards only its link is active, or none when it has no link. |
| `ActiveNav.NoMatchKeepsLinks` | script.js:192 | When no section holds the probe, no link changes. |
| `ActiveNav.MatchLeavesAtMostOne` | script.js:192-197 | When some section holds the probe, at most one link is active afterwards. |
| `ActiveNav.HighlightIdempotent` | script.js:183-202 | Running the highlighter twice with the same layout and probe gives the same links as running it once. This covers the repeated runs made by the re-registered scroll listeners. |
| `ActiveNav.ScrollToSectionHighlightsIt` | script.js:184-192 | After a smooth scroll to a section (line 121), the probe at `scrollY + 100` falls 20 pixels into it. So the section's own link is highlighted when the section is taller than 20 pixels and no later section holds the probe. |
| `ActiveNav.NavLinks.HighlightNavLink` | script.js:183-199 | The scan over the sections, with its clear-all loop, leaves the links exactly as `Highlighted` of the old links at probe `scrollY + 100`. |
| `Throttle.Next` | script.js:274-277 | One event keeps the run history append-only, with at most one run. A run happens exactly for a call made while `inThrottle` is unset, and uses that call's arguments. The flag ends set exactly when the event is a call and either the flag was already set or `func` returned normally. |
| `Throttle.Replay` | script.js:270-279 | Any event sequence only appends to the run history. |
| `Throttle.CallsDroppedDuringCooldown` | script.js:274-278 | While `inThrottle` is set, any number of calls runs nothing and changes nothing. |
| `Throttle.WindowRunsUntilFirstReturn` | script.js:271-278 | Within one cooldown window that starts with the flag unset, `func` runs for every call up to and including the first one on which it returns normally, with those calls' arguments. It runs for none after that, and the flag ends set. If the first call returns normally, it alone runs. |
| `Throttle.ThrowingCallsAllRun` | script.js:274-277 | Calls on which `func` throws never set the flag, so every one of them runs `func`. |
| `Throttle.RunsBoundedByExpiries` | script.js:270-278 | Over any events, `func` runs at most once per timer expiry, once per call on which it throws, and once more when the flag starts unset. |
| `Throttle.Throttled.constructor` | script.js:270 | The flag starts unset and nothing has run. |
| `Throttle.Throttled.Call` | script.js:271-279 | A call with the flag unset runs the wrapped function with its arguments, and sets the flag only if the function returns normally. A call with the flag set runs nothing and leaves the flag set. |
| `Throttle.Throttled.Expire` | script.js:277 | The timer clears the flag and runs nothing. |

## Left out

- Real browser services are abstracted. `localStorage` becomes the `stored` field. `window.scrollTo` becomes the computed target of `SmoothScroll.ScrollTarget`. Listener registration and event dispatch become method calls. Layout values (`offsetTop`, `offsetHeight`, `scrollY`) become parameters. `window.scrollY` is a double in the DOM, but the model restricts it to whole pixels (`int`). This changes no result, because the comparisons at script.js:141 and 192 mean the same on reals.
- The FAQ content's inline `maxHeight` (`0`, or the measured `scrollHeight`) is not modelled. It follows the `active` flag and a layout measurement the browser supplies. The header's `role` and `tabindex` are not modelled either; they are constant attributes.
- `e.preventDefault()` in the keydown and nav-link handlers is not modelled; it only suppresses the browser's default action.
- `ActiveNav.ScrollToSectionHighlightsIt` assumes the browser lands exactly on the requested scroll position. It does not model the clamping of `scrollTo` to the scrollable range.
- `SmoothScroll.ScrollTarget` takes the resolved target's offset as input. It does not model `document.querySelector(href)`, which can also match elements that are not sections, or throw on an `href` that is not a valid selector.
- `ActiveNav.LinkFor` compares `href` with "#" plus the id literally. It assumes ids contain no `"`, `\` or newline. Such an id makes the selector `.nav-link[href="#id"]` either throw a SyntaxError, which aborts the scan and, at load time, the rest of the start-up block, or read as a CSS escape that matches a different `href`.
- `Throttle.Throttled.Call`: a `func` that calls the throttled closure again while it runs is not modelled. Such a nested call finds the flag still unset and runs `func` a second time. A throwing `func` is modelled by the `throws` input, but its exception reaching the caller is not.
- `Throttle.WindowRunsUntilFirstReturn` assumes `func` does not call the throttled closure again while it runs. A re-entrant call would add a run the lemma does not count.
- `Throttle.RunsBoundedByExpiries` assumes `func` does not call the throttled closure again while it runs. Each re-entrant call can add one run beyond the bound.
- `Throttle`: the `limit` delay and the clock are not modelled. The timer is the explicit `Expire` event. The `this` context is folded into the argument value.
- `lastScrollY` in `initScrollEffects` is written but never read, so it is not modelled.
- The scroll-reveal animation (`initScrollAnimations`) is left out: it only sets inline styles from browser intersection events.
- The metrics counter (`initMetricsAnimation`) is left out: it is floating point (`parseFloat`, `toFixed`) driven by `setInterval`.
- The ripple effect (`initButtonInteractions`) and `addRippleStyles` are left out: they are layout geometry, timed DOM removal and a CSS string.
- Error logging (`handleErrors`), the `DOMContentLoaded` start-up block and its try/catch, the empty `visibilitychange` handler and `preloadResources` over an empty list are left out: they are plumbing or do nothing.
- The throttled scroll handler is left out; the throttle is modelled on its own. On each throttled tick it calls `initScrollEffects` and `initActiveNavigation`. Both add another scroll listener, so the navbar handler and the highlighter end up running many times per scroll. `initActiveNavigation` also runs `highlightNavLink()` at once (script.js:202). The repeated runs change nothing further: `NavbarEffect.StyleAt` depends on `scrollY` alone, and `ActiveNav.HighlightIdempotent` shows that a second highlighter run with the same inputs changes nothing.
